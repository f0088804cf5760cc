/**
 * What the crawler sees of the web. HTML parsing, the regular-expression
 * scans of raw HTML, `urljoin`, HTTP, the headless browser and SHA-1 are not
 * modelled: a page arrives already parsed into the elements the code reads,
 * and everything that talks to the outside world is a field of `World`.
 */
module Web {
  import opened Wrappers

  /** An `<a href>` element: its `href` attribute as written and its stripped text. */
  datatype Anchor = Anchor(href: string, text: string)

  /** An `<iframe>`, `<embed>` or `<object>` element: its `src` and `data` attributes, "" when absent. */
  datatype Frame = Frame(src: string, data: string)
  {
    /** `tag.get("src") or tag.get("data")`. */
    function Source(): string {
      if src != "" then src else data
    }
  }

  /**
   * A fetched document: its text, and what the parser and the source's
   * regular expressions find in it, each list in document order.
   */
  datatype Page = Page(
    html: string,
    anchors: seq<Anchor>,
    frames: seq<Frame>,
    /** Quoted absolute `.pdf`/`.doc(x)`/`.xls(x)` URLs in scripts (discovery). */
    scriptDocUrls: seq<string>,
    /** `href` values ending in `?wpdmdl=<digits>`. */
    wpdmdlHrefs: seq<string>,
    /** Quoted absolute `.pdf`/`.doc(x)`/`.xls(x)`/`.htm(l)` URLs in scripts (downloader). */
    scriptDocOrHtmlUrls: seq<string>,
    /** The `action` attribute of every `<form>`, "" when absent. */
    formActions: seq<string>,
    /** Quoted strings that mention `download`. */
    downloadStrings: seq<string>,
    /** Targets of `location = '...'` assignments. */
    locationTargets: seq<string>,
    /** Absolute URLs mentioning `download` or `baixar`. */
    downloadUrls: seq<string>)

  /** The page of a failed fetch: `html = resp.text if resp else ""`. */
  const EmptyPage := Page("", [], [], [], [], [], [], [], [], [])

  /** An HTTP response after redirects. */
  datatype Response = Response(
    url: string,
    contentType: Option<string>,
    disposition: Option<string>,
    content: seq<bv8>,
    page: Page)

  datatype Request =
    | Get(url: string)
    | Post(url: string, payload: seq<(string, string)>)

  /** A link or button the browser offers for clicking, with its text and `href`. */
  datatype Clickable = Clickable(text: string, href: string)

  /** The headless browser. */
  datatype Browser = Browser(
    /** `selenium_render_and_get_html`: the rendered page, `None` on failure. */
    render: string -> Option<Page>,
    /** The `//a|//button` elements of the rendered page at a URL, in document order. */
    clickables: string -> seq<Clickable>,
    /** The page source after the `k`-th click of the ranked clicks at a URL; `None` when the click failed. */
    afterClick: (string, nat) -> Option<Page>)

  /** Everything outside the crawler. */
  datatype World = World(
    /** `urllib.parse.urljoin`. */
    join: (string, string) -> string,
    /** `safe_get`: the page of a successful GET. */
    fetch: string -> Option<Page>,
    /** `make_driver`: `None` when no browser could be started. */
    browser: Option<Browser>,
    /** `robust_request`: the response, `None` after the retries failed. */
    request: Request -> Option<Response>,
    /** `extract_document_links`: the fallback link probe of the downloader. */
    probeLinks: string -> seq<string>,
    /** `sha1_bytes`. */
    sha1: seq<bv8> -> string)
}
