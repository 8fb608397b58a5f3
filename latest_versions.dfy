/**
 * `latest_versions`: one row per link of the sidebar list that mentions
 * "All versions", with the link as found and the version and status parsed
 * from its text.
 */
module VersionListExtractor {
  import opened Results
  import opened Text
  import opened Patterns
  import opened Pages
  import opened Tables

  const Header: Row := ("Ссылка на документацию", "Версия", "Статус")

  /** The phrase that marks the sidebar list of all documentation versions. */
  const Marker: string := "All versions"

  /**
   * The `for ... break ... else: raise` scan over the sidebar lists: the
   * links of the first list whose text contains the marker; lists after it
   * are ignored, whatever they contain.
   */
  function VersionList(uls: seq<UlTag>): (r: Result<seq<Anchor>>)
    ensures r.Err? <==> forall k :: 0 <= k < |uls| ==> !Contains(uls[k].text, Marker)
    ensures r.Err? ==> r.error == NothingFound
    ensures r.Ok? ==> exists k :: FirstMarked(uls, k) && r.value == uls[k].anchors
    decreases |uls|
  {
    if uls == [] then Err(NothingFound)
    else if Contains(uls[0].text, Marker) then
      assert FirstMarked(uls, 0);
      Ok(uls[0].anchors)
    else
      var r := VersionList(uls[1..]);
      if r.Ok? then
        var k :| FirstMarked(uls[1..], k) && r.value == uls[1..][k].anchors;
        assert FirstMarked(uls, k + 1);
        r
      else
        assert forall k :: 1 <= k < |uls| ==> uls[k] == uls[1..][k - 1];
        r
  }

  /** List `k` is the first whose text contains the marker. */
  predicate FirstMarked(uls: seq<UlTag>, k: int) {
    0 <= k < |uls| && Contains(uls[k].text, Marker) && forall j :: 0 <= j < k ==> !Contains(uls[j].text, Marker)
  }

  /** The scan's selection is the first marked list, whichever way it is found. */
  lemma {:induction false} VersionListFirst(uls: seq<UlTag>, n: int)
    requires FirstMarked(uls, n)
    ensures VersionList(uls) == Ok(uls[n].anchors)
  {
    var k :| FirstMarked(uls, k) && VersionList(uls).value == uls[k].anchors;
    assert FirstMarked(uls, k);
  }

  /**
   * The row for one link: its href unchanged, then the version and status
   * of the leftmost PATTERN match in its text, or the raw text and an empty
   * status where PATTERN does not match.
   */
  function VersionRow(a: Anchor): (r: Result<Row>)
    ensures r.Ok? <==> a.href.Some?
    ensures r.Err? ==> r.error == AttributeMissing("href")
    ensures r.Ok? ==> r.value.0 == a.href.value
    ensures r.Ok? && !LabelMatches(a.text) ==> r.value.1 == a.text && r.value.2 == ""
    ensures r.Ok? && LabelMatches(a.text) ==> exists i: nat :: LeftmostLabelMatch(a.text, i, r.value.1, r.value.2)
  {
    match a.href
    case None => Err(AttributeMissing("href"))
    case Some(link) =>
      var parsed := ParseLabel(a.text);
      ParseLabelSpec(a.text);
      Ok((link, parsed.0, parsed.1))
  }

  /** What `latest_versions` returns, or the error it raises. */
  function LatestVersionsResult(session: Session, mainDocUrl: string): (r: Result<seq<Row>>)
    ensures r.Ok? ==> |r.value| >= 1 && r.value[0] == Header
    ensures session.get(mainDocUrl).sidebar.None? ==> r == Err(ElementMissing("div"))
    ensures r.Ok? ==> session.get(mainDocUrl).sidebar.Some? && exists k :: FirstMarked(session.get(mainDocUrl).sidebar.value, k)
    ensures session.get(mainDocUrl).sidebar.Some? &&
      (forall k :: 0 <= k < |session.get(mainDocUrl).sidebar.value| ==> !Contains(session.get(mainDocUrl).sidebar.value[k].text, Marker))
      ==> r == Err(NothingFound)
  {
    match session.get(mainDocUrl).sidebar
    case None => Err(ElementMissing("div"))
    case Some(uls) =>
      match VersionList(uls)
      case Err(e) => Err(e)
      case Ok(anchors) =>
        match Collect(anchors, VersionRow)
        case Err(e) => Err(e)
        case Ok(rows) => Ok([Header] + rows)
  }

  /** `latest_versions`: find the version list by a linear scan, then append one row per link. */
  method LatestVersions(session: Session, mainDocUrl: string) returns (r: Result<seq<Row>>)
    ensures r == LatestVersionsResult(session, mainDocUrl)
  {
    var soup := session.get(mainDocUrl);
    if soup.sidebar.None? {
      return Err(ElementMissing("div"));
    }
    var ulTags := soup.sidebar.value;
    var n := 0;
    while n < |ulTags| && !Contains(ulTags[n].text, Marker)
      invariant 0 <= n <= |ulTags|
      invariant forall j :: 0 <= j < n ==> !Contains(ulTags[j].text, Marker)
    {
      n := n + 1;
    }
    if n == |ulTags| {
      assert VersionList(ulTags) == Err(NothingFound);
      return Err(NothingFound);
    }
    VersionListFirst(ulTags, n);
    var aTags := ulTags[n].anchors;
    LatestVersionsUnfold(session, mainDocUrl, ulTags, aTags);
    var results := [Header];
    ghost var rows: seq<Row> := [];
    assert aTags[..0] == [];
    for i := 0 to |aTags|
      invariant results == [Header] + rows
      invariant Collect(aTags[..i], VersionRow) == Ok(rows)
    {
      var aTag := aTags[i];
      VersionRowStep(aTags, i, rows);
      if aTag.href.None? {
        return Err(AttributeMissing("href"));
      }
      var link := aTag.href.value;
      var parsed := ParseLabel(aTag.text);
      var version, status := parsed.0, parsed.1;
      results := results + [(link, version, status)];
      rows := rows + [(link, version, status)];
    }
    assert aTags[..|aTags|] == aTags;
    return Ok(results);
  }

  /**
   * With a list mentioning the marker, the table has the header at row 0 and
   * one row per link of that list, in order, each carrying the link's href
   * unchanged; it fails exactly when some link has no href.
   */
  lemma {:induction false} VersionsTable(session: Session, mainDocUrl: string, uls: seq<UlTag>, anchors: seq<Anchor>)
    requires session.get(mainDocUrl).sidebar == Some(uls)
    requires VersionList(uls) == Ok(anchors)
    ensures var r := LatestVersionsResult(session, mainDocUrl);
      && (r.Ok? <==> forall k :: 0 <= k < |anchors| ==> anchors[k].href.Some?)
      && (r.Err? ==> r.error == AttributeMissing("href"))
      && (r.Ok? ==>
            && |r.value| == 1 + |anchors|
            && r.value[0] == Header
            && forall k :: 0 <= k < |anchors| ==>
                 r.value[k + 1] == VersionRow(anchors[k]).value && r.value[k + 1].0 == anchors[k].href.value)
  {
    var c := Collect(anchors, VersionRow);
    LatestVersionsUnfold(session, mainDocUrl, uls, anchors);
    VersionRowsOk(anchors);
    if c.Err? {
      VersionRowsErr(anchors);
    } else {
      HeaderShift(Header, c.value);
    }
  }

  /** Past the sidebar and the list scan, the result is the header followed by the row loop's outcome. */
  lemma {:induction false} LatestVersionsUnfold(session: Session, mainDocUrl: string, uls: seq<UlTag>, anchors: seq<Anchor>)
    requires session.get(mainDocUrl).sidebar == Some(uls)
    requires VersionList(uls) == Ok(anchors)
    ensures var c := Collect(anchors, VersionRow);
      LatestVersionsResult(session, mainDocUrl) == if c.Ok? then Ok([Header] + c.value) else Err(c.error)
  {
  }

  /**
   * One pass of the row loop: a link without href ends the whole loop with
   * that error; otherwise the loop so far gains the link's row.
   */
  lemma {:induction false} VersionRowStep(aTags: seq<Anchor>, i: int, rows: seq<Row>)
    requires 0 <= i < |aTags|
    requires Collect(aTags[..i], VersionRow) == Ok(rows)
    ensures aTags[i].href.None? ==> Collect(aTags, VersionRow) == Err(AttributeMissing("href"))
    ensures aTags[i].href.Some? ==>
      Collect(aTags[..i + 1], VersionRow) ==
        Ok(rows + [(aTags[i].href.value, ParseLabel(aTags[i].text).0, ParseLabel(aTags[i].text).1)])
  {
    assert aTags[..i + 1][..i] == aTags[..i];
    if aTags[i].href.None? {
      CollectPrefixErr(aTags, i + 1, VersionRow);
    } else {
      assert VersionRow(aTags[i]) == Ok((aTags[i].href.value, ParseLabel(aTags[i].text).0, ParseLabel(aTags[i].text).1));
    }
  }

  /** The row loop succeeds exactly when every link has an href, and row k then carries link k's href. */
  lemma {:induction false} VersionRowsOk(anchors: seq<Anchor>)
    ensures Collect(anchors, VersionRow).Ok? <==> forall k :: 0 <= k < |anchors| ==> anchors[k].href.Some?
    ensures Collect(anchors, VersionRow).Ok? ==>
      && |Collect(anchors, VersionRow).value| == |anchors|
      && forall k :: 0 <= k < |anchors| ==>
           && Collect(anchors, VersionRow).value[k] == VersionRow(anchors[k]).value
           && Collect(anchors, VersionRow).value[k].0 == anchors[k].href.value
  {
    CollectOk(anchors, VersionRow);
  }

  /** A failed row loop reports a missing href. */
  lemma {:induction false} VersionRowsErr(anchors: seq<Anchor>)
    requires Collect(anchors, VersionRow).Err?
    ensures Collect(anchors, VersionRow).error == AttributeMissing("href")
  {
    CollectErr(anchors, VersionRow);
  }
}
