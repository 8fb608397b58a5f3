/**
 * `download`: locate the A4 PDF archive on the downloads page and derive the
 * name of the file it is saved under.
 */
module DownloadExtractor {
  import opened Results
  import opened Text
  import opened Patterns
  import opened Pages

  /** Where the archive comes from and the file name it is written to under the downloads directory. */
  datatype DownloadTarget = DownloadTarget(archiveUrl: string, filename: string)

  function DownloadsUrl(mainDocUrl: string, urljoin: UrlJoin): string {
    urljoin(mainDocUrl, "download.html")
  }

  /** An `<a>` tag that `find('a', {'href': re.compile(FILE)})` accepts: it has an href and FILE matches it. */
  predicate IsArchiveAnchor(a: Anchor) {
    a.href.Some? && IsArchiveHref(a.href.value)
  }

  /** The position of the first accepted `<a>` tag of the table, as `find` returns the first match. */
  function FirstArchiveAnchor(anchors: seq<Anchor>): (r: Option<nat>)
    ensures r.Some? ==> r.value < |anchors| && IsArchiveAnchor(anchors[r.value])
    ensures r.Some? ==> forall j :: 0 <= j < r.value ==> !IsArchiveAnchor(anchors[j])
    ensures r.None? <==> forall j :: 0 <= j < |anchors| ==> !IsArchiveAnchor(anchors[j])
    decreases |anchors|
  {
    if anchors == [] then None
    else if IsArchiveAnchor(anchors[0]) then Some(0)
    else
      match FirstArchiveAnchor(anchors[1..])
      case None => None
      case Some(k) => Some(k + 1)
  }

  /**
   * What `download` saves, or the error it raises: the first table's first
   * archive link, resolved against the downloads page, and the last path
   * segment of the resolved URL as the file name.
   */
  function Download(session: Session, mainDocUrl: string, urljoin: UrlJoin): (r: Result<DownloadTarget>)
    ensures var page := session.get(DownloadsUrl(mainDocUrl, urljoin));
      && (page.table.None? ==> r == Err(ElementMissing("table")))
      && (page.table.Some? && FirstArchiveAnchor(page.table.value).None? ==> r == Err(ElementMissing("a")))
      && (r.Ok? <==> page.table.Some? && FirstArchiveAnchor(page.table.value).Some?)
      && (r.Ok? ==>
            var anchors := page.table.value;
            var k := FirstArchiveAnchor(anchors).value;
            r.value.archiveUrl == urljoin(DownloadsUrl(mainDocUrl, urljoin), anchors[k].href.value))
    ensures r.Ok? ==> var url, name := r.value.archiveUrl, r.value.filename;
      && '/' !in name
      && |name| <= |url| && url[|url| - |name|..] == name
      && (|name| == |url| || url[|url| - |name| - 1] == '/')
  {
    var downloadsUrl := DownloadsUrl(mainDocUrl, urljoin);
    var soup := session.get(downloadsUrl);
    match soup.table
    case None => Err(ElementMissing("table"))
    case Some(linkTable) =>
      match FirstArchiveAnchor(linkTable)
      case None => Err(ElementMissing("a"))
      case Some(k) =>
        var archiveUrl := urljoin(downloadsUrl, linkTable[k].href.value);
        LastSegmentSpec(archiveUrl);
        Ok(DownloadTarget(archiveUrl, LastSegment(archiveUrl)))
  }
}
