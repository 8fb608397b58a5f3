/**
 * Fetched pages, as the scraper sees them after parsing. Each field holds
 * what one BeautifulSoup query of main.py would return on that page, or
 * None where the query finds nothing.
 */
module Pages {
  import opened Results

  /** An `<a>` tag: its `href` attribute, if present, and its text. */
  datatype Anchor = Anchor(href: Option<string>, text: string)

  /** An `<li class="toctree-l1">` item: the first `<a>` inside it. */
  datatype ListItem = ListItem(anchor: Option<Anchor>)

  /** `<section id="what-s-new-in-python">`: the `toctree-l1` items of its `<div class="toctree-wrapper">`, in document order. */
  datatype WhatsNewSection = WhatsNewSection(toctree: Option<seq<ListItem>>)

  /** A `<ul>` element: its flattened text and its `<a>` tags in document order. */
  datatype UlTag = UlTag(text: string, anchors: seq<Anchor>)

  datatype Document = Document(
    /** `soup.find('section', id='what-s-new-in-python')` */
    whatsNew: Option<WhatsNewSection>,
    /** the text of `soup.find('h1')` */
    h1: Option<string>,
    /** the text of `soup.find('dl')` */
    dl: Option<string>,
    /** the `<ul>` elements of `<div class="sphinxsidebarwrapper">`, in document order */
    sidebar: Option<seq<UlTag>>,
    /** the `<a>` tags of `soup.find('table')`, in document order */
    table: Option<seq<Anchor>>)

  /** The cached HTTP session: the parsed page served for each URL. */
  datatype Session = Session(get: string -> Document)

  /** `urllib.parse.urljoin(base, ref)`, left uninterpreted. */
  type UrlJoin = (string, string) -> string
}
