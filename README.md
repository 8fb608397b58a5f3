# parser_yap extraction core, modelled in Dafny

parser_yap scrapes the Python documentation site in one of three modes:

- `whats-new` builds a table of the release-notes pages listed on the "What's New" index. Each row holds the page URL, its title and its editor/author block.
- `latest-versions` builds a table of the documentation versions linked from the sidebar. Each row holds the link and the version and status parsed from the link text.
- `download` saves the A4 PDF archive of the documentation.

This project models the logic of `main.py` that sits between fetching a page and printing a table. That logic is:

- the two regular expressions, `PATTERN` for version labels and `FILE` for the archive link;
- the scan for the sidebar list that mentions "All versions";
- building the tables: a header row, then one row per item in page order, stopping at the first item that raises;
- choosing the archive link and deriving the file name from it;
- the table that maps mode names to extractors, and `main`'s decision whether to call the output.

Fetching and HTML parsing are abstracted. A `Pages.Session` maps a URL to a `Pages.Document`. A document holds what each BeautifulSoup query in `main.py` returns on that page, or `None` where the query finds nothing. `urljoin` is a function-typed parameter and is left uninterpreted. `MAIN_DOC_URL` comes from `constants.py`, which is not part of this model, so it is also a parameter.

Modules:

- `Results`: `Option`, `Result` and the error kinds. An error stands for an exception the source raises: a `find` that returned `None` and was then used, a missing `href`, the explicit "nothing found" raise, or an unknown mode key.
- `Text`: substring test, newline replacement, `split`/`join` and the last path segment.
- `Patterns`: matchers for `PATTERN` and `FILE` with Python `re.search` semantics, each proved equal to a declarative definition of the match.
- `Tables`: `Collect`, the shared shape of the two append loops.
- `Pages`: the abstracted page data.
- `WhatsNewExtractor`, `VersionListExtractor`, `DownloadExtractor`: the three extractors.
- `Orchestrator`: the mode table and `main`.
- `Scenarios`: worked concrete inputs.

The two loops of the source (`whats_new` and `latest_versions`) are methods with loops. Each is proved equal to a function of its inputs, and the table properties are lemmas about that function.

The header rows use the Russian column labels of `main.py`. The code also leaves `latest-versions` links unresolved, and the model keeps that.

## Model

| member | source | states |
|---|---|---|
| Text.ContainsIff | main.py:45 | the substring test used for `'All versions' in ul.text` holds exactly when the phrase occurs at some position of the text |
| Text.ReplaceNewlines | main.py:33 | `replace('\n', ' ')` keeps the length, turns each newline into one space and leaves every other character unchanged |
| Text.ReplaceNewlinesClean | main.py:33 | the replaced text contains no newline, and characters other than newlines stay where they were |
| Text.DigitsEnd | main.py:12 | the end of a maximal run of digits, which is what `\d+` must take when a space follows it |
| Text.LineEnd | main.py:12 | the first newline at or after a position, or the end of the text; Python's `.` stops there |
| Text.LastIndexOf | main.py:12 | the last occurrence of a character in a range, and none after it; this is where greedy `.*\)` backtracks to |
| Text.Split | main.py:69 | `split('/')` yields at least one piece, and no piece contains the separator |
| Text.JoinSplit | main.py:69 | joining the pieces of `split` with the separator gives back the original string |
| Text.SplitJoin | main.py:69 | splitting a join of separator-free pieces gives back those pieces |
| Text.LastSegmentSpec | main.py:69 | `split('/')[-1]` has no `/`, is a suffix of the URL, and is either the whole URL or preceded by `/` |
| Text.LastSegmentAfterSlash | main.py:69 | whatever precedes the last `/`, the file name is the slash-free text after it |
| Patterns.StatusStartSound | main.py:12 | when the head scanner accepts, `Python <digit>.<digits> (` stands there with the captured version |
| Patterns.StatusStartComplete | main.py:12 | wherever `Python <version> (` stands, the head scanner finds it and takes exactly that version |
| Patterns.StatusEndSound | main.py:12 | the status the scanner captures has no newline, is closed by `)`, and no `)` follows on its line |
| Patterns.StatusEndComplete | main.py:12 | every status that meets the greedy definition is the one the scanner captures |
| Patterns.MatchAtIff | main.py:12 | at every start position, the matcher returns groups `(v, s)` exactly when `PATTERN` matches there with those groups |
| Patterns.SearchFromSpec | main.py:53 | `re.search` returns the match at the smallest start that has one, and reports none only when no start matches |
| Patterns.SearchFindsLeftmost | main.py:53 | a reported match is a real match, and no match starts further left |
| Patterns.SearchMissesOnlyNonMatches | main.py:53-54 | `re.search` returns `None` only for texts that `PATTERN` matches nowhere |
| Patterns.ParseLabelSpec | main.py:53-57 | a text `PATTERN` does not match gives `(text, '')`; otherwise the row gets the two groups of the leftmost match, a version `d.d+` and a status without newline |
| Patterns.IsArchiveHrefIff | main.py:13 | the closed-form test agrees with a search for `.+pdf-a4\.zip$` (at least one non-newline character, the suffix, then the end or a final newline), in both directions |
| Tables.CollectPrefixErr | main.py:24-34 | once an item raises, the loop's outcome is that error, whatever comes after it |
| Tables.CollectOk | main.py:24-34 | the append loop succeeds exactly when every item succeeds; it then has one row per item, row k being item k's row |
| Tables.CollectErr | main.py:51-58 | a failed loop reports the error of its first failing item, and every item before that one succeeded |
| WhatsNewExtractor.ReleaseItems | main.py:20-22 | a missing `section#what-s-new-in-python` raises, then a missing `div.toctree-wrapper` raises; otherwise the result is exactly the `toctree-l1` items |
| WhatsNewExtractor.ArticleRow | main.py:25-34 | one index item gives the resolved link, the page's `<h1>` text and its `<dl>` text on one line; a missing `<a>`, `href`, `<dl>` or `<h1>` raises, checked in that order |
| WhatsNewExtractor.WhatsNewResult | main.py:16-35 | a successful result starts with the header `('Ссылка на статью', 'Заголовок', 'Редактор, автор')` and needs the index items; when the index lookups fail, their error is the result |
| WhatsNewExtractor.WhatsNew | main.py:16-35 | the append loop returns exactly the specified table, or the specified error |
| WhatsNewExtractor.WhatsNewTable | main.py:20-35 | the table is the header plus one row per `toctree-l1` item, in item order with no deduplication, and no summary contains a newline; it fails exactly when some item fails, with the first failing item's error |
| VersionListExtractor.VersionList | main.py:43-49 | the links of the first `<ul>` whose text contains `All versions`; earlier lists lack the phrase and later ones are ignored; with no such list it raises "nothing found" |
| VersionListExtractor.VersionListFirst | main.py:44-47 | whichever way the first marked list is found, the scan selects its links |
| VersionListExtractor.VersionRowStep | main.py:51-58 | one pass of the row loop: a link without `href` ends the loop with that error, otherwise the loop gains that link's row |
| VersionListExtractor.VersionRow | main.py:51-58 | a link gives its `href` unchanged together with the parsed version and status; a link without `href` raises |
| VersionListExtractor.LatestVersionsResult | main.py:38-59 | a result starts with the header `('Ссылка на документацию', 'Версия', 'Статус')` and needs a marked list; a missing sidebar raises; with no marked list it raises "nothing found" and gives no rows |
| VersionListExtractor.LatestVersions | main.py:38-59 | the scan-and-break loop and the append loop return exactly the specified table, or the specified error |
| VersionListExtractor.VersionsTable | main.py:50-59 | the table is the header plus one row per link of the selected list, in link order, each with its `href` unchanged; it fails exactly when some link has no `href` |
| DownloadExtractor.FirstArchiveAnchor | main.py:66-67 | the first `<a>` of the table whose `href` matches `FILE`; links before it do not match, and `None` means no link matches |
| DownloadExtractor.Download | main.py:62-69 | the archive URL is the first matching `href` resolved against the downloads page; the file name has no `/` and ends the URL; a missing table or missing link raises |
| Orchestrator.Run | main.py:85-94 | an unknown mode raises; `download` never reaches the output; the output is called only for the two table modes, with their header at row 0 |
| Orchestrator.ModeNames | main.py:78-82 | the mode table has exactly the keys `whats-new`, `latest-versions` and `download` |
| Orchestrator.RunPassesTable | main.py:92-94 | the table handed to the output is exactly the one the mode's extractor returned |
| Scenarios.BugfixLabel | main.py:53-55 | `Python 3.11 (bugfix)` gives `('3.11', 'bugfix')` |
| Scenarios.LabelWithoutStatus | main.py:56-57 | `Python 2.7` gives `('Python 2.7', '')` |
| Scenarios.GreedyStatus | main.py:12 | the status runs to the last `)` on its line and does not cross a newline |
| Scenarios.ArchiveNames | main.py:13 | an A4 archive name matches `FILE`; a letter-size name, and the bare suffix with nothing before it, do not |
| Scenarios.ArchiveFileName | main.py:69 | `archive/3.12/python-3.12-docs-pdf-a4.zip` gives the file name `python-3.12-docs-pdf-a4.zip` |

## Left out

- HTTP fetching and the persistent response cache (`requests_cache.CachedSession`, `session.cache.clear()`, main.py:88-90) are network I/O and an external library. A session is a fixed map from URL to page, and transport failures are not modelled.
- HTML parsing with BeautifulSoup and lxml is a foreign library. Each page is given as the results of the queries `main.py` makes on it, in document order.
- `urljoin` (reference resolution, section 5.2 of RFC 3986) is a standard-library call. It is an uninterpreted function-typed parameter.
- The response encoding override (main.py:29, 40) decides how the response bytes are decoded. Decoding is folded into `Session.get`, which returns the decoded text of each page.
- The `tqdm` progress bars (main.py:24, 51) have no effect on the data.
- Creating the downloads directory, fetching the archive and writing it (main.py:70-75) are file and network I/O. `Download` returns the archive URL and the file name it would write to.
- Argument parsing, `control_output` and the path constants come from `configs.py`, `outputs.py` and `constants.py`, which are not part of this model. The model returns the table that `main` would pass to the output.
- The exact Python exception classes (AttributeError, TypeError, KeyError, Exception) are collapsed into the `Results.Error` kinds.
- Patterns.MatchAtIff: `\d` is modelled as the ASCII digits `0`-`9`. On `str`, Python's `\d` also accepts other Unicode decimal digits.
