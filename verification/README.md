# Meeting-minutes crawler, modelled in Dafny

This project models the core of a crawler that collects the meeting minutes
("atas") published by Brazilian public pension institutes (RPPS). The core has
three stages:

- **Discovery** (`core/discovery.py`) walks one site breadth-first. It scores
  links by their text and URL and keeps same-domain, non-blacklisted links.
  It collects document URLs, `wpdmdl=` plugin links, and synthetic
  `detail://<page>|<id>` tokens for detail pages that need a POST to yield
  their file.
- **Download** (`core/downloader.py`) routes each discovered URL:
  - social links and navigation pages are skipped;
  - `id=` links are fetched directly;
  - detail tokens get one GET of the page, endpoint cleaning, and then POSTs
    with seven payload shapes;
  - everything else is fetched, following up to eight candidate links when
    the answer is HTML.

  A saved file must pass the file-name plausibility filter and must not
  repeat the content hash of an earlier file.
- **Extraction** (`core/extractor.py`) turns each saved entry into a metadata
  record. It also provides the meeting-type and meeting-date detectors.

What the model treats as oracles:

- The network, the browser and the hash function are the fields of
  `Web.World`:
  - `fetch` and `request` answer GETs and POSTs;
  - `browser` renders pages and clicks elements;
  - `sha1` hashes content;
  - `join` is `urljoin`.
- What HTML parsing and regular-expression scans extract from a page (anchors,
  frames, form actions, script URLs and so on) are the fields of `Web.Page`.
- Every download function returns an `Outcome`, which holds three things:
  - the saved entry with its hash;
  - the updated set of seen hashes;
  - the exact sequence of requests it issued.

  This lets the contracts talk about what was fetched and posted, in which
  order.

Modules, one file each:

| module | content |
|---|---|
| `Wrappers` | `Option` |
| `Text` | Python string primitives (`lower`, `in`, `strip`, `split`, `find`) on `seq<char>` |
| `Urls` | `urlparse` and `unquote` |
| `Ranking` | stable descending sort, order-keeping dedupe, and generic fold lemmas |
| `Web` | the oracles |
| `Filenames` | name filters and `sanitize_filename` from the downloader |
| `Discovery` | link scoring and extraction |
| `Crawl` | `crawl_site` |
| `Downloader` | the download stage |
| `Extractor` | the extraction stage |

Where a docstring and the code disagree, the model follows the code. `is_download_hub_candidate` (core/discovery.py:154-169) needs both a hub word in the path and a hub key in the query, because it returns `path_hits and query_hits`. Its docstring says "or".

## Model

| member | source | states |
|---|---|---|
| Filenames.NormalizeText | core/downloader.py:56-60 | the normalised text is ASCII, has no upper-case letter and no hyphen, has single spaces only, and has no space at either end |
| Filenames.NormalizeIdempotent | core/downloader.py:56-60 | normalising twice gives the same text as normalising once |
| Filenames.CollapseSpaces | core/downloader.py:59 | the result is single-spaced and made only of spaces and non-whitespace characters of the input; it is empty exactly when the input is; it starts with a space exactly when the input starts with whitespace |
| Filenames.CollapseSpacesStreams | core/downloader.py:59 | agrees with a one-pass reading of `re.sub(r"\s+", " ", s)`: every non-whitespace character is copied in order, the first whitespace character of a run writes one space, and the rest of the run is dropped |
| Filenames.SimpleNameAccepted | core/downloader.py:62-71 | a simple lower-case name without any of the letters e, i, o, u, l is accepted, because every blacklist term has one of them |
| Filenames.SimpleNameRejected | core/downloader.py:62-71 | a simple hyphenated name is rejected when it contains a blacklist term once its hyphens are read as spaces |
| Filenames.BalanceSheetRejected | core/downloader.py:42 | `balanco-2023.pdf` is rejected, through the term `balanc` |
| Filenames.NumberedMinutesAccepted | core/downloader.py:62-71 | `ata-03-2024.pdf` is accepted |
| Filenames.EmptyTextIsPlausible | core/downloader.py:67-71 | empty text (a missing name) is accepted |
| Filenames.HyphenatedTermsNeverMatch | core/downloader.py:44-47 | a blacklist term containing `-` (`membro-`, `certificado-`, `prova-de-vida`) can never occur in normalised text, since normalisation turns hyphens into spaces |
| Filenames.SanitizeFilename | core/downloader.py:182-183 | the result is sanitised, and is the kept characters (alphanumerics and ` ._-`, in order) with only trailing whitespace removed: a prefix of them after which nothing but whitespace follows |
| Filenames.KeepFilenameCharsAppend | core/downloader.py:183 | filtering distributes over concatenation: the kept characters of `a + b` are those of `a` followed by those of `b` |
| Filenames.SanitizeIdempotent | core/downloader.py:182-183 | sanitising a sanitised name changes nothing |
| Filenames.FilenameFromContentDisposition | core/downloader.py:185-195 | a missing or empty header gives no name; a non-empty header gives a name exactly when its lower-cased form has a `filename=` or `filename*=` parameter somewhere; any name given is sanitised |
| Filenames.ContentDispositionFirstMatch | core/downloader.py:190-195 | a name read from the header is the sanitised, percent-decoded, quote-stripped value of the leftmost `filename` parameter of the lower-cased header |
| Filenames.ContentDispositionRoundTrip | core/downloader.py:185-195 | a sanitised name written as `attachment; filename="<name>"` is read back from that header, lower-cased |
| Filenames.FindFilenameParam | core/downloader.py:190-193 | a value is found exactly when some position from the start position on holds a `filename=` or `filename*=` parameter; the value is non-empty and has no `;` |
| Filenames.FindFilenameParamFirst | core/downloader.py:190-193 | the value found is the captured group of the leftmost match: a match exists at some position and none before it |
| Filenames.FindFilenameParamAt | core/downloader.py:190-193 | conversely, a match with no match before it is the one whose group is reported |
| Discovery.DomainOf | core/discovery.py:129-133 | the domain is the parsed network location when `urlparse` accepts it and "" when it raises; either way it is valid and free of `/?#` delimiters |
| Urls.ParseWritten | core/discovery.py:131 | a URL written `scheme://host` followed by a path, query or fragment parses to the lower-cased scheme and to exactly that host |
| Discovery.DomainOfWritten | core/discovery.py:129-133 | the domain of `scheme://host...` is the host, or "" when the host has an unmatched bracket and `urlparse` fails |
| Discovery.SameDomainWritten | core/discovery.py:136-137 | two such URLs with well-formed hosts are on the same domain exactly when their hosts are equal, whatever their schemes and paths |
| Discovery.LooksLikeFileAgreesWithDownloader | core/discovery.py:147-151 | the crawler's file test and the downloader's `looks_like_doc_url` accept exactly the same URLs, although their extension lists are ordered differently |
| Discovery.LooksLikeFileIgnoresCase | core/discovery.py:147-151 | lower-casing a URL does not change whether it looks like a file |
| Discovery.LooksLikeFileIgnoresQuery | core/discovery.py:147-151 | a query string after the first `?` does not change whether a URL looks like a file |
| Discovery.UrlBlacklistedIgnoresCase | core/discovery.py:140-144 | lower-casing a URL does not change whether it is blacklisted |
| Discovery.UrlBlacklistedExtends | core/discovery.py:140-144 | a blacklisted URL stays blacklisted with any text added before or after it |
| Discovery.HubFromParts | core/discovery.py:154-169 | a non-empty URL whose lower-cased path mentions a hub word and whose lower-cased query has a hub key with a non-empty value (the fields `parse_qs` keeps) is a download hub; the test needs both parts, as the code uses `and` where its docstring says "or" |
| Discovery.HubExample | core/discovery.py:154-169 | the path `/downloads.php` with the query `cat=7` passes both hub tests |
| Discovery.HubNeedsQueryKey | core/discovery.py:164-169 | a URL whose query has no `=` is never a download hub |
| Discovery.HubNeedsPathToken | core/discovery.py:166-169 | a URL whose path mentions no hub token is never a download hub |
| Discovery.KeywordPointsCount | core/discovery.py:207-209 | the keyword points are 8 times the number of distinct listed keywords found |
| Discovery.FoundKeywords | core/discovery.py:207-209 | a keyword is counted exactly when it is listed and occurs in the text |
| Discovery.KeywordPointsStack | core/discovery.py:207-209 | two different keywords found give at least 16 points |
| Discovery.KeywordPointsNone | core/discovery.py:207-209 | keywords longer than the text give no points |
| Discovery.ElementTextScore | core/discovery.py:198-226 | a score always lies between -32 and 132 |
| Discovery.EmptyElementScoresZero | core/discovery.py:198-226 | an element with no text and no link scores 0: the joining space alone matches no keyword, year or penalty |
| Discovery.CommitteeKeywordsStack | core/discovery.py:84-90 | text mentioning `comitê` earns at least 16 points, because `comit` and `comitê` both match |
| Discovery.AnchorDoc | core/discovery.py:248-268 | an anchor yields at most its own resolved URL, never blacklisted; for a file-like URL it is kept exactly when the file name or the anchor text passes the plausibility filter; any other URL is kept exactly when it is not blacklisted, mentions `download` or `arquivo`, and the lower-cased text and URL carry a keyword |
| Discovery.FrameDoc | core/discovery.py:271-283 | a frame yields at most its resolved non-empty source, never blacklisted; a non-blacklisted file-like source is kept exactly when its file name is plausible; any other non-blacklisted source is kept exactly when it mentions `download` |
| Discovery.ScriptDoc | core/discovery.py:287-290 | a script match yields nothing or itself, and itself exactly when it is not blacklisted and its file name is plausible |
| Discovery.ExtractDocsFromHtml | core/discovery.py:233-310 | empty HTML yields nothing; the result has no repeats and holds exactly the candidates from anchors, frames, script matches, the hub page itself and `wpdmdl` links |
| Discovery.ExtractDocsKeepOrder | core/discovery.py:302-310 | the result lists candidates in the order of their first appearance |
| Discovery.ExtractedFilesArePlausible | core/discovery.py:248-291 | a file-like result that is not the hub page itself and not a `wpdmdl` link is not blacklisted, and either its file name or the text of an anchor pointing at it passes the plausibility filter |
| Discovery.KeepBestUniqueComplete | core/discovery.py:345-350 | every positive-score link not seen before appears in the deduplicated list |
| Discovery.KeepBestUnique | core/discovery.py:343-350 | kept links come from the list, have positive scores, were not seen before, and no URL is kept twice |
| Discovery.KeepBestUniqueBest | core/discovery.py:343-350 | from a list sorted best first, the kept copy of a URL has its best score |
| Discovery.ExtractInternalLinks | core/discovery.py:312-352 | a page without HTML has no links; links have positive scores and no repeated URL, and come sorted by descending score |
| Discovery.InternalLinksInScope | core/discovery.py:323-340 | every link is on the base URL's domain and has no blacklisted word |
| Discovery.InternalCandidateSource | core/discovery.py:323-340 | every ranked link comes from an anchor of the page, with that anchor's score plus the hub bonus |
| Discovery.InternalLinksKeepBest | core/discovery.py:323-350 | every same-domain, non-blacklisted anchor with a positive score is among the links, with at least its score |
| Discovery.ScoredClickables | core/discovery.py:467-481 | exactly the eligible elements (no navigation text, positive score) are scored, each once, with its own element score and position, in page order |
| Discovery.TopClicks | core/discovery.py:483-484 | exactly the first 12 (or all, when fewer) entries, sorted best first, drawn as a sub-multiset of the scored ones; any entry left out means 12 were taken, each scoring at least as much; as the sort is stable, the entries kept with any one score are the first entries of that score in the input, in input order |
| Discovery.TopClicksTies | core/discovery.py:483-484 | for entries listed in increasing position order, kept entries with equal scores stay in position order, and an entry left out that ties a kept one comes later than it |
| Discovery.ClickRank | core/discovery.py:467-484 | the ranked elements are eligible, carry their own scores and appear once each; an eligible element left out was beaten by 12 others, each scoring at least as much |
| Discovery.ClickRankTies | core/discovery.py:467-484 | ties are broken by page order: ranked elements with equal scores appear in page order, and an eligible element left out whose score ties a ranked one comes later on the page |
| Discovery.ClickCollect | core/discovery.py:486-496 | the documents collected by clicking have no repeats and are exactly the documents extracted from the page reached by clicking each ranked element |
| Discovery.IdDigits | core/discovery.py:614-616 | `id=(\d+)` finds a match exactly when some position starts one; the identifier is a non-empty digit run that follows `id=` in the URL |
| Discovery.IdDigitsFirst | core/discovery.py:614-616 | the identifier is the whole digit run after the leftmost `id=` that a digit follows: no earlier position matches, and the run ends at the end of the URL or before a non-digit |
| Discovery.IdDigitsOfWritten | core/discovery.py:614-616 | `id=` followed by digits and then a non-digit (or nothing) yields exactly those digits |
| Discovery.IdDigitsTakesFirst | core/discovery.py:614-616 | `id=12&id=3` yields `12`: the first match wins |
| Discovery.DetailIdOf | core/discovery.py:611-616 | a URL is a detail page exactly when it has no `cat=`, its path has no document extension and it contains `id=` followed by a digit; the identifier is the match of `id=(\d+)` in the lower-cased URL |
| Discovery.CatAnchorToken | core/discovery.py:632-642 | a category page's anchor yields at most one detail token, built from the resolved URL and its `id=` digits |
| Crawl.DetailFinding | core/discovery.py:611-619 | a detail token is added exactly for detail pages |
| Crawl.DetailFindingDecodes | core/discovery.py:617-619 | the token the crawler adds for a page without `|` decodes, in the downloader, back to that page and its identifier |
| Crawl.DynamicDocs | core/discovery.py:659-681 | the browser fallback adds something only when a browser exists, the URL looks promising and the static page gave no document; in that case a non-empty rendered page adds its extracted documents followed by the documents collected by clicking, and a failed or empty render adds nothing |
| Crawl.Enqueued | core/discovery.py:690-693 | a scored link is queued one level deeper exactly when it is unvisited and the next level is within the depth limit |
| Crawl.NextEntries | core/discovery.py:686-693 | queued links are unvisited, one level deeper and within the limit; every unvisited internal link of the page is queued when the next level is within the limit |
| Crawl.NextEntriesInScope | core/discovery.py:686-693 | a queued link is not blacklisted and is on the page's domain |
| Crawl.NextEntriesComplete | core/discovery.py:686-693 | for every page, seen set and depth, every unseen internal link is queued one level deeper when that level is within the limit |
| Crawl.CrawlSite | core/discovery.py:546-708 | the walk visits at most 120 pages and processes only unique, in-domain, non-blacklisted URLs within the depth limit; every visited URL other than the base URL is processed; it never fetches a `wpdmdl=` link; the base URL, when in scope, is processed first at depth 0; a walk that stops below the page limit has visited every URL it queued and has processed every internal link of every page it fetched shallower than the depth limit; the result is the deduplicated concatenation of what each processed URL contributed, in processing order |
| Crawl.WalkSite | core/discovery.py:557-708 | the breadth-first loop keeps the same guarantees for any per-page contribution: page bound, unique in-scope processed URLs, every visited URL but the base one processed, no `wpdmdl=` fetch, queued entries in scope and within the limit, the base URL first, the queue drained and every internal link of a fetched page shallower than the depth limit processed when the page limit is not reached, and the result the deduplicated concatenation of contributions |
| Crawl.RunWalk | core/discovery.py:561-693 | for any scope, the loop from the base URL ends in the finished state (page bound, invariants, base URL first, every visited URL but the base one processed, queue drained below the page limit), and below the page limit every internal link of a fetched page shallower than the depth limit is visited and, unless it is the base URL, processed |
| Crawl.Visit | core/discovery.py:565-579 | a visited head entry is dropped and nothing else changes; an unvisited head URL is marked visited and the rest of the queue stays at its front; a head that is too deep or out of scope changes nothing else; the head entry is appended to the processed entries exactly when it was unvisited, within the depth limit and in scope |
| Crawl.VisitKeepsLinks | core/discovery.py:565-693 | after one turn, every internal link of a fetched page processed shallower than the depth limit is still visited or queued one level deeper |
| Crawl.WalkKeepsLinks | core/discovery.py:561-693 | the whole loop keeps that property: such a link is visited or waiting in the queue |
| Crawl.WalkFrom | core/discovery.py:561-565 | the loop runs until the queue is empty or 120 pages are visited, and never visits more than 120 |
| Crawl.WalkKeepsEnqueued | core/discovery.py:561-693 | every entry ever queued is in scope, within the depth limit, and either visited or still waiting in the queue |
| Crawl.WalkKeepsProcessed | core/discovery.py:565-579 | every processed URL was visited, is in scope, within the depth limit, and processed only once |
| Crawl.VisitKeepsVisited | core/discovery.py:565-693 | a turn keeps every visited URL but the base one processed, because only the base entry can be queued out of scope or beyond the depth limit |
| Crawl.WalkKeepsVisited | core/discovery.py:561-693 | the whole loop keeps every visited URL but the base one processed |
| Crawl.ResultsAreContributions | core/discovery.py:582-586 | a URL is in the crawl's result exactly when some processed URL contributed it |
| Crawl.ContributionsStep | core/discovery.py:649-651 | processing one more URL appends exactly its new findings to the results |
| Downloader.GuessFilename | core/downloader.py:197-219 | the name is non-empty and sanitised; the Content-Disposition name wins, then the URL's last path segment, then the content-type default |
| Downloader.UrlPathName | core/downloader.py:204-207 | the name from the URL path is sanitised |
| Downloader.DefaultNameSanitized | core/downloader.py:212-219 | every content-type default name is non-empty and sanitised |
| Downloader.SavedName | core/downloader.py:282-291 | the saved name extends the guessed name; a guessed name already ending in a saved extension is kept as it is, any other gets the content type's extension; the result ends in a saved extension unless the content type suggests none |
| Downloader.ExtensionFor | core/downloader.py:285-291 | `pdf` in the content type gives `.pdf`; otherwise `word` or `officedocument` gives `.docx`; otherwise `html` gives `.html`; otherwise no extension |
| Downloader.ExtensionAgreesWithDefault | core/downloader.py:212-291 | the extension table and the default-name table agree: an added extension is the one the default name ends with, and none is added exactly when the default is `arquivo.bin` |
| Downloader.DefaultNameEnds | core/downloader.py:212-291 | a default name ends in a saved extension exactly when the content type suggests one |
| Downloader.DefaultNameSavedAsIs | core/downloader.py:197-291 | when neither the header nor the URL names the file, the saved name is the default name, never extended a second time |
| Downloader.SaveBinary | core/downloader.py:274-318 | a file is saved exactly when its name is plausible and its hash is new; the saved entry records the hash, the path `outDir/name`, the URL as file and source page, and the RPPS name and state; no request is issued |
| Downloader.SameContentSavedOnce | core/downloader.py:304-308 | once content is saved, the same content is never saved again, under any URL |
| Downloader.AnchorCandidate | core/downloader.py:146-155 | an anchor is a candidate exactly when its href is not blacklisted and it looks like a document or its text mentions `ata`, `reuni` or `comit` |
| Downloader.FrameCandidate | core/downloader.py:158-164 | a frame yields at most its resolved non-empty source, and yields it exactly when that looks like a document |
| Downloader.CandidateDocUrls | core/downloader.py:132-177 | empty HTML yields nothing; the candidates have no repeats and are exactly the anchor, frame and script candidates |
| Downloader.CandidateOrigins | core/downloader.py:146-168 | each candidate comes from a non-blacklisted anchor, looks like a document, or is a script match |
| Downloader.FollowCandidates | core/downloader.py:351-357 | a saved entry's hash is new, is added to the seen set, and the entry lies in the output directory under a plausible name |
| Downloader.FollowCandidatesRequests | core/downloader.py:351-357 | followed links are fetched in order with GET; every answer before the last was not binary; stopping early or saving means the last answer was binary; when the last answer is binary, the result is what the binary saver makes of that answer under the followed link |
| Downloader.FollowCandidatesSavesLast | core/downloader.py:352-357 | the loop saves only when its last answer is binary, and then its result is what the binary saver makes of that answer under the followed link's URL |
| Downloader.FollowedLinks | core/downloader.py:346-351 | at most 8 links are followed |
| Downloader.DownloadSingleUrl | core/downloader.py:320-366 | a saved entry's hash is new, is added to the seen set, and the entry lies in the output directory under a plausible name; no answer or an empty one saves nothing; a non-empty answer that is binary, or is not HTML, saves what the binary saver makes of it under the URL; a non-binary HTML answer saves what the follow loop over its links saves |
| Downloader.DownloadSingleUrlRequests | core/downloader.py:332-357 | the first request is a GET of the URL itself, all requests are GETs, at most 9 are issued, and a binary first answer is saved directly with nothing further fetched |
| Downloader.BinaryTypeExtension | core/downloader.py:339 | a content type that the downloader saves directly as binary never gets `.html`, and gets no extension exactly when `octet-stream` is its only marker |
| Downloader.LooksLikeHtmlSniffs | core/downloader.py:343 | an answer is treated as HTML exactly when its content type mentions `html` or `<html` starts within the first 200 characters of its lower-cased body |
| Downloader.DecodeDetail | core/downloader.py:381-386 | decoding fails exactly when there is no `|`; the decoded page has no `|` |
| Downloader.DetailRoundTrip | core/downloader.py:381-383 | decoding the token the crawler builds returns its page and identifier, when the page has no `|` |
| Downloader.DigitsHaveNoDetailPrefix | core/discovery.py:614-617 | a digit identifier never contains `detail://` |
| Downloader.CommonEndpoints | core/downloader.py:440-449 | the five conventional endpoints are resolved against the page's directory |
| Downloader.CommonEndpointsCollected | core/downloader.py:447-449 | the conventional endpoints are always among the endpoint candidates |
| Downloader.EndpointVerdict | core/downloader.py:455-476 | an endpoint raises exactly when it is non-empty, its stripped form names no social host and has an invalid network location; it is kept, stripped, exactly when it is non-empty, valid, social-free and has no query or a file parameter |
| Downloader.CleanWithFails | core/downloader.py:454-478 | the cleaning loop fails exactly when some candidate raises |
| Downloader.CleanEndpoints | core/downloader.py:454-478 | cleaned endpoints appear once each |
| Downloader.CleanEndpointsFails | core/downloader.py:454-478 | cleaning fails exactly when some non-empty, social-free candidate has an invalid network location |
| Downloader.CleanEndpointsMembers | core/downloader.py:454-478 | a cleaned endpoint is exactly the stripped form of a non-empty, social-free candidate with no query or a file parameter |
| Downloader.QuerylessEndpointSurvives | core/downloader.py:471-476 | a social-free candidate without a query survives cleaning |
| Downloader.CommonEndpointSurvives | core/downloader.py:440-476 | a conventional endpoint without a query survives cleaning |
| Downloader.PostPayloads | core/downloader.py:485-493 | seven payloads, each carrying the identifier under one of the file fields |
| Downloader.PostPlan | core/downloader.py:495-504 | the POST plan tries every payload on the first endpoint, then on the next: request `i` goes to endpoint `i / 7` with payload `i % 7` |
| Downloader.TryPosts | core/downloader.py:494-511 | a saved entry's hash is new, is added to the seen set, and the entry lies in the output directory under a plausible name |
| Downloader.TryPostsRequests | core/downloader.py:495-512 | the POSTs issued are a prefix of the plan; every answer before the last was not a document; stopping early or saving means the last answer was one; when the last answer is one, the result is what the binary saver makes of that answer under the endpoint's URL |
| Downloader.TryPostsSavesLast | core/downloader.py:505-511 | no POST saves nothing; a last answer that is not a document saves nothing; after a last answer that is one, the result is what the binary saver makes of it under the endpoint's URL |
| Downloader.DownloadDetailPage | core/downloader.py:368-512 | an undecodable token issues no request and saves nothing; for a decoded page URL, a request is issued exactly when its network location is valid, and the first is a GET of the page; a direct `id=` link is downloaded as a plain URL; otherwise a file is saved only after a POST answered with a document, and then it is what the binary saver makes of that answer under the endpoint's URL |
| Downloader.ResolveDetail | core/downloader.py:394-512 | a saved entry's hash is new and the entry lies in the output directory under a plausible name |
| Downloader.ResolveDetailIsPosts | core/downloader.py:394-511 | past the invalid-host and direct-link exits, the resolver is one GET of the page and, when the page has HTML and its endpoints clean, the POST loop over every endpoint and payload |
| Downloader.ResolveDetailSaves | core/downloader.py:394-511 | a direct link is handled exactly as a plain URL download; otherwise a file is saved only when the last of at least two requests is a POST answered with a document, and then the result is what the binary saver makes of that answer under the endpoint's URL |
| Downloader.ResolveDetailRequests | core/downloader.py:394-512 | the first request is a GET of the page; a direct `id=` link issues GETs only; otherwise every later request is a POST to a cleaned endpoint with a payload carrying the identifier |
| Downloader.ResolveDetailAsks | core/downloader.py:394-512 | the resolver issues a request exactly when the page URL's network location is valid, and its first request is a GET of the page |
| Downloader.RouteOf | core/downloader.py:536-573 | social links are skipped; the direct GET route is taken exactly for valid, non-detail URLs with `id=` in the query; navigation queries without a document extension are skipped; the detail route needs the `detail://` prefix |
| Downloader.DownloadOne | core/downloader.py:529-579 | a skipped URL saves nothing and issues no request; routes other than the detail route issue GETs only; a saved entry has a new hash; the `id=` and plain routes are the single-URL download, whose first request is a GET of the URL and whose binary first answer is saved directly; the detail route is the detail-page download, which issues a request exactly when the decoded page URL has a valid network location |
| Downloader.DownloadFiles | core/downloader.py:517-584 | the result is the fold of the per-URL handling over the URLs in order, the seen-hash set starting empty and passed from each URL to the next; there is one request list per URL; no two saved entries share a hash; every saved entry lies in the output directory under a plausible name; every URL's requests follow its route |
| Downloader.FoldStepsHashes | core/downloader.py:526-582 | the hashes a fold of per-URL steps records are distinct and none was in the starting set |
| Downloader.FoldStepsEntries | core/downloader.py:526-582 | a fold saves at most one entry per URL, each plausible, with one hash per entry |
| Downloader.FoldStepsRequests | core/downloader.py:526-582 | a fold issues one request list per URL, each routed as that URL demands |
| Extractor.DetectMeetingType | core/extractor.py:107-113 | the type is committee exactly when the first 500 characters, lower-cased, mention a committee keyword; it is council exactly when they mention a council keyword and no committee keyword; otherwise it is unknown |
| Extractor.MeetingTypeReadsHead | core/extractor.py:108 | text beyond the first 500 characters does not affect the type |
| Extractor.MeetingTypeIgnoresCase | core/extractor.py:108 | lower-casing the text first does not change the type |
| Extractor.FirstDate | core/extractor.py:117-120 | a date pattern yields a value exactly when it matches somewhere in the text, and that value is the digit-led slice matched at the leftmost matching position |
| Extractor.ExtractMeetingDate | core/extractor.py:115-121 | the placeholder is returned exactly when neither date pattern matches in the lower-cased head; otherwise the date is a piece of the head that starts with a digit |
| Extractor.NumericDateFirst | core/extractor.py:117-120 | when a numeric date occurs, the result is the leftmost numeric date, even if a written date comes earlier |
| Extractor.MeetingDateReadsHead | core/extractor.py:116 | text beyond the first 500 characters does not affect the date |
| Extractor.ShortNumberEnd | core/extractor.py:26 | `\d{1,2}` takes two digits exactly when a second digit follows |
| Extractor.FirstMatchFrom | core/extractor.py:118 | the search returns the leftmost matching position, and none exactly when no position matches |
| Extractor.LeftmostMatch | core/extractor.py:118-120 | a match is returned exactly when the pattern matches somewhere, and it is the slice matched at the leftmost matching position |
| Extractor.PathNameOfJoin | core/extractor.py:140 | the name of `dir/name` is `name` |
| Extractor.PathRoot | core/extractor.py:141 | the root is empty exactly for relative paths; exactly two leading slashes are kept as `//` |
| Extractor.Suffix | core/extractor.py:131 | the suffix is empty, or a final `.`-piece of the name that is not the whole name and has no other dot; whenever the last dot is neither first nor last, the suffix is exactly the piece from it |
| Extractor.RecordOf | core/extractor.py:137-147 | the record takes RPPS and state from the entry or else from the RPPS info, the path's name, string form and lower-cased suffix, the entry's URLs, and no meeting type or date |
| Extractor.RecordOfSavedFile | core/extractor.py:130-140 | for a file saved as `dir/name` the record's file name is `name` and its format is the lower-cased suffix of `name` |
| Extractor.ExtractMetadataFromFiles | core/extractor.py:126-149 | one record per entry, in order, each the entry's record |
| Ranking.Dedup | core/discovery.py:701-708 | the deduplicated list has no repeats and exactly the original members |
| Ranking.DedupKeepsFirstOccurrenceOrder | core/discovery.py:701-708 | members stay in the order of their first occurrence |
| Ranking.SortDesc | core/discovery.py:343 | the sorted list is a permutation, ordered by descending score |
| Ranking.SortDescStable | core/discovery.py:343 | the sort is stable: entries with equal scores keep their relative order |
| Ranking.SortDescTies | core/discovery.py:483 | sorting entries listed in increasing position order leaves equal scores in increasing position order |
| Text.SplitOnLastPiece | core/downloader.py:205 | the last piece of `split("/")` is the text after the final separator |

## Left out

- The network, retries, request headers and user agents (`robust_request`, `safe_get`): modelled as the `World.fetch` and `World.request` oracles. A request that fails after its retries reads as `None`.
- HTML parsing (BeautifulSoup) and the regular-expression scans of raw HTML are modelled as fields of `Page`, in document order.
- `urljoin` is the `World.join` oracle.
- `sha1` is the `World.sha1` oracle.
- `extract_document_links` (core/downloader.py:224-268) is the `World.probeLinks` oracle. The requests it issues itself are not part of the logged requests.
- The Selenium browser: rendering, clicking and the page after a click are oracles of `Browser`. The tab, year-selector and scroll interactions run before rendering navigates to a new page, so they are modelled as having no effect.
- The manual skip listener, the progress monitor and stall detection in the crawler are interactive and time-based: not modelled.
- File writes and the timestamp suffix added when a file already exists: not modelled, because both depend on the file system and the clock. `SaveBinary` records the path `outDir/name`.
- Python's iteration order over a `set` of endpoints in `download_detail_page` is modelled as insertion order.
- Text handling:
  - `lower`, `isalnum` and the NFKD fold are exact for ASCII and Latin-1 only; other characters are treated as non-alphanumeric and dropped by the fold;
  - `\d` is read as the ASCII digits, and `\b` as a boundary between a word character (the Latin-1 alphanumerics of `isalnum`, and `_`) and anything else, so a letter outside Latin-1 next to a date counts as a boundary;
  - `unquote` decodes only escapes below `%80`.
- `urlparse` raises only on unbalanced brackets in the network location; its other checks are not modelled. This case is modelled where the downloader parses a URL itself: the route choice in `download_files` (core/downloader.py:542) and endpoint cleaning (core/downloader.py:455-476).
- `Crawl.CrawlSite`: `urljoin` (the `World.join` oracle) and `urlparse` are total in the model. In Python they raise `ValueError` on a malformed bracketed host, at core/discovery.py:162, 250, 275, 299, 325, 612 and 635. Such an exception ends `crawl_site` for the whole site. The model never takes that path; its guarantees describe walks in which no such URL occurs.
- `Downloader.DownloadFiles`: the `except` of core/downloader.py:581-582 also catches a `ValueError` from `urljoin` while candidates or endpoints are collected (core/downloader.py:150, 162, 418, 424, 430, 449). That drops the current URL after the requests already issued. The model's `join` never raises, so that URL goes on to follow candidates or post to endpoints.
- `Extractor.PathString`: follows pathlib path normalisation as in Python 3.12, and assumes the output directory is already in normal form.
- The text extractors for PDF, DOCX and HTML (core/extractor.py:33-102) read files through foreign libraries; the metadata loop does not call them. Not modelled.
- `core/parallel_runner.py` and `app.py` orchestrate processes and the user interface. They are not part of this model.
