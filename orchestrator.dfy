/** `main`: pick the extractor for the requested mode and hand its table, if any, to the output. */
module Orchestrator {
  import opened Results
  import opened Pages
  import opened Tables
  import WhatsNewExtractor
  import VersionListExtractor
  import DownloadExtractor

  datatype Mode = WhatsNewMode | LatestVersionsMode | DownloadMode

  /** MODE_TO_FUNCTION. */
  const ModeToFunction: map<string, Mode> :=
    map["whats-new" := WhatsNewMode, "latest-versions" := LatestVersionsMode, "download" := DownloadMode]

  /** The value the mode's extractor returns: a table, or nothing for `download`, whose result is the file it saves. */
  function Extract(mode: Mode, session: Session, mainDocUrl: string, urljoin: UrlJoin): Result<Option<seq<Row>>>
  {
    match mode
    case WhatsNewMode =>
      (match WhatsNewExtractor.WhatsNewResult(session, mainDocUrl, urljoin)
       case Err(e) => Err(e)
       case Ok(rows) => Ok(Some(rows)))
    case LatestVersionsMode =>
      (match VersionListExtractor.LatestVersionsResult(session, mainDocUrl)
       case Err(e) => Err(e)
       case Ok(rows) => Ok(Some(rows)))
    case DownloadMode =>
      match DownloadExtractor.Download(session, mainDocUrl, urljoin)
      case Err(e) => Err(e)
      case Ok(_) => Ok(None)
  }

  /**
   * One run of `main` for the mode name given on the command line: `Ok(Some(rows))`
   * when `control_output(rows, args)` is called, `Ok(None)` when it is skipped.
   */
  function Run(modeName: string, session: Session, mainDocUrl: string, urljoin: UrlJoin): (r: Result<Option<seq<Row>>>)
    ensures modeName !in {"whats-new", "latest-versions", "download"} ==> r == Err(UnknownMode(modeName))
    ensures modeName == "download" ==> r.Ok? ==> r.value.None?
    ensures modeName == "download" ==> (r.Ok? <==> DownloadExtractor.Download(session, mainDocUrl, urljoin).Ok?)
    ensures r.Ok? && r.value.Some? ==>
      && |r.value.value| >= 1
      && (modeName == "whats-new" || modeName == "latest-versions")
      && (modeName == "whats-new" ==> r.value.value[0] == WhatsNewExtractor.Header)
      && (modeName == "latest-versions" ==> r.value.value[0] == VersionListExtractor.Header)
  {
    if modeName in ModeToFunction then Extract(ModeToFunction[modeName], session, mainDocUrl, urljoin)
    else Err(UnknownMode(modeName))
  }

  /** The command line offers exactly these three modes. */
  lemma ModeNames()
    ensures ModeToFunction.Keys == {"whats-new", "latest-versions", "download"}
    ensures ModeToFunction["whats-new"] == WhatsNewMode
    ensures ModeToFunction["latest-versions"] == LatestVersionsMode
    ensures ModeToFunction["download"] == DownloadMode
  {
  }

  /** The table passed to the output is exactly what the mode's extractor returned, in its order. */
  lemma RunPassesTable(modeName: string, session: Session, mainDocUrl: string, urljoin: UrlJoin)
    ensures modeName == "whats-new" ==>
      var e := WhatsNewExtractor.WhatsNewResult(session, mainDocUrl, urljoin);
      Run(modeName, session, mainDocUrl, urljoin) == (if e.Ok? then Ok(Some(e.value)) else Err(e.error))
    ensures modeName == "latest-versions" ==>
      var e := VersionListExtractor.LatestVersionsResult(session, mainDocUrl);
      Run(modeName, session, mainDocUrl, urljoin) == (if e.Ok? then Ok(Some(e.value)) else Err(e.error))
  {
  }
}
