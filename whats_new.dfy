/**
 * `whats_new`: one row per release-notes page listed on the "What's New"
 * index, with the page's URL, its title and the flattened text of its first
 * definition list (the editor and author lines).
 */
module WhatsNewExtractor {
  import opened Results
  import opened Text
  import opened Pages
  import opened Tables

  const Header: Row := ("Ссылка на статью", "Заголовок", "Редактор, автор")

  function IndexUrl(mainDocUrl: string, urljoin: UrlJoin): string {
    urljoin(mainDocUrl, "whatsnew/")
  }

  /** The `toctree-l1` items of the index page, or the error of the first lookup that finds nothing. */
  function ReleaseItems(index: Document): (r: Result<seq<ListItem>>)
    ensures index.whatsNew.None? ==> r == Err(ElementMissing("section"))
    ensures index.whatsNew.Some? && index.whatsNew.value.toctree.None? ==> r == Err(ElementMissing("div"))
    ensures r.Ok? <==> index.whatsNew.Some? && index.whatsNew.value.toctree.Some?
    ensures r.Ok? ==> r.value == index.whatsNew.value.toctree.value
  {
    match index.whatsNew
    case None => Err(ElementMissing("section"))
    case Some(section) =>
      match section.toctree
      case None => Err(ElementMissing("div"))
      case Some(items) => Ok(items)
  }

  /** The row for one index item, fetching the page its first link points to. */
  function ArticleRow(session: Session, urljoin: UrlJoin, indexUrl: string, item: ListItem): (r: Result<Row>)
    ensures item.anchor.None? ==> r == Err(ElementMissing("a"))
    ensures item.anchor.Some? && item.anchor.value.href.None? ==> r == Err(AttributeMissing("href"))
    ensures item.anchor.Some? && item.anchor.value.href.Some? ==>
      var link := urljoin(indexUrl, item.anchor.value.href.value);
      var page := session.get(link);
      && (page.dl.None? ==> r == Err(ElementMissing("dl")))
      && (page.dl.Some? && page.h1.None? ==> r == Err(ElementMissing("h1")))
      && (r.Ok? <==> page.dl.Some? && page.h1.Some?)
      && (r.Ok? ==> r.value.0 == link && r.value.1 == page.h1.value)
      && (r.Ok? ==> r.value.2 == ReplaceNewlines(page.dl.value) && '\n' !in r.value.2)
  {
    match item.anchor
    case None => Err(ElementMissing("a"))
    case Some(a) =>
      match a.href
      case None => Err(AttributeMissing("href"))
      case Some(href) =>
        var link := urljoin(indexUrl, href);
        var page := session.get(link);
        match page.dl
        case None => Err(ElementMissing("dl"))
        case Some(dl) =>
          match page.h1
          case None => Err(ElementMissing("h1"))
          case Some(h1) =>
            ReplaceNewlinesClean(dl);
            Ok((link, h1, ReplaceNewlines(dl)))
  }

  function ArticleStep(session: Session, urljoin: UrlJoin, indexUrl: string): ListItem -> Result<Row> {
    item => ArticleRow(session, urljoin, indexUrl, item)
  }

  /** What `whats_new` returns, or the error it raises. */
  function WhatsNewResult(session: Session, mainDocUrl: string, urljoin: UrlJoin): (r: Result<seq<Row>>)
    ensures r.Ok? ==> |r.value| >= 1 && r.value[0] == Header
    ensures r.Ok? ==> ReleaseItems(session.get(IndexUrl(mainDocUrl, urljoin))).Ok?
    ensures ReleaseItems(session.get(IndexUrl(mainDocUrl, urljoin))).Err? ==>
      r == Err(ReleaseItems(session.get(IndexUrl(mainDocUrl, urljoin))).error)
  {
    var indexUrl := IndexUrl(mainDocUrl, urljoin);
    match ReleaseItems(session.get(indexUrl))
    case Err(e) => Err(e)
    case Ok(items) =>
      match Collect(items, ArticleStep(session, urljoin, indexUrl))
      case Err(e) => Err(e)
      case Ok(rows) => Ok([Header] + rows)
  }

  /** `whats_new`: fetch the index, then each listed page in turn, appending one row per page. */
  method WhatsNew(session: Session, mainDocUrl: string, urljoin: UrlJoin) returns (r: Result<seq<Row>>)
    ensures r == WhatsNewResult(session, mainDocUrl, urljoin)
  {
    var whatsNewUrl := IndexUrl(mainDocUrl, urljoin);
    var soup := session.get(whatsNewUrl);
    if soup.whatsNew.None? {
      return Err(ElementMissing("section"));
    }
    var mainDiv := soup.whatsNew.value;
    if mainDiv.toctree.None? {
      return Err(ElementMissing("div"));
    }
    var sectionsByPython := mainDiv.toctree.value;
    ghost var step := ArticleStep(session, urljoin, whatsNewUrl);
    var result := [Header];
    ghost var rows: seq<Row> := [];
    assert sectionsByPython[..0] == [];
    for i := 0 to |sectionsByPython|
      invariant result == [Header] + rows
      invariant Collect(sectionsByPython[..i], step) == Ok(rows)
    {
      var section := sectionsByPython[i];
      assert sectionsByPython[..i + 1][..i] == sectionsByPython[..i];
      if section.anchor.None? {
        CollectPrefixErr(sectionsByPython, i + 1, step);
        return Err(ElementMissing("a"));
      }
      var aTag := section.anchor.value;
      if aTag.href.None? {
        CollectPrefixErr(sectionsByPython, i + 1, step);
        return Err(AttributeMissing("href"));
      }
      var link := urljoin(whatsNewUrl, aTag.href.value);
      var page := session.get(link);
      if page.dl.None? {
        CollectPrefixErr(sectionsByPython, i + 1, step);
        return Err(ElementMissing("dl"));
      }
      var dlText := ReplaceNewlines(page.dl.value);
      if page.h1.None? {
        CollectPrefixErr(sectionsByPython, i + 1, step);
        return Err(ElementMissing("h1"));
      }
      assert step(section) == Ok((link, page.h1.value, dlText));
      result := result + [(link, page.h1.value, dlText)];
      rows := rows + [(link, page.h1.value, dlText)];
    }
    assert sectionsByPython[..|sectionsByPython|] == sectionsByPython;
    return Ok(result);
  }

  /**
   * The table has the header at row 0 and then exactly one row per index
   * item, in index order, with no deduplication; every summary is on one
   * line. The run fails exactly when some item fails, with the error of the
   * first one.
   */
  lemma {:induction false} WhatsNewTable(session: Session, mainDocUrl: string, urljoin: UrlJoin, items: seq<ListItem>)
    requires ReleaseItems(session.get(IndexUrl(mainDocUrl, urljoin))) == Ok(items)
    ensures var r := WhatsNewResult(session, mainDocUrl, urljoin);
      var step := ArticleStep(session, urljoin, IndexUrl(mainDocUrl, urljoin));
      && (r.Ok? <==> forall k :: 0 <= k < |items| ==> step(items[k]).Ok?)
      && (r.Ok? ==>
            && |r.value| == 1 + |items|
            && r.value[0] == Header
            && (forall k :: 0 <= k < |items| ==> r.value[k + 1] == step(items[k]).value)
            && (forall k :: 1 <= k < |r.value| ==> '\n' !in r.value[k].2))
      && (r.Err? ==> exists k :: FirstFailure(items, step, k) && step(items[k]).error == r.error)
  {
    var step := ArticleStep(session, urljoin, IndexUrl(mainDocUrl, urljoin));
    var c := Collect(items, step);
    assert WhatsNewResult(session, mainDocUrl, urljoin) == if c.Ok? then Ok([Header] + c.value) else Err(c.error);
    CollectOk(items, step);
    if c.Err? {
      CollectErr(items, step);
    } else {
      HeaderShift(Header, c.value);
      forall k | 0 <= k < |items| ensures '\n' !in c.value[k].2 {
        assert step(items[k]) == Ok(c.value[k]);
      }
    }
  }
}
