/**
 * The two regular expressions of the scraper, matched by hand with the
 * semantics of Python's `re.search`: the match is tried at every start
 * position from the left, `.` matches any character except a newline,
 * and `.*` is greedy.
 *
 *   PATTERN = Python (?P<version>\d\.\d+) \((?P<status>.*)\)
 *   FILE    = .+pdf-a4\.zip$
 */
module Patterns {
  import opened Results
  import opened Text

  /** The literal text of PATTERN before the version group. */
  const Prefix: string := "Python "

  /** The literal text of FILE after `.+`. */
  const ArchiveSuffix: string := "pdf-a4.zip"

  /** What the version group accepts: one digit, a dot, one or more digits. */
  predicate IsVersion(v: string) {
    |v| >= 3 && IsDigit(v[0]) && v[1] == '.' && forall k :: 2 <= k < |v| ==> IsDigit(v[k])
  }

  /** `Python <version> (` stands at `i`: the literal text and the version group of PATTERN. */
  predicate HeadAt(s: string, i: nat, version: string) {
    var e := i + |Prefix| + |version|;
    && e + 2 <= |s|
    && s[i..i + |Prefix|] == Prefix
    && IsVersion(version)
    && s[i + |Prefix|..e] == version
    && s[e] == ' '
    && s[e + 1] == '('
  }

  /**
   * `<status>)` stands at `a`: the status holds no newline and, `.*` being
   * greedy, no `)` follows the closing one on the same line.
   */
  predicate StatusAt(s: string, a: nat, status: string) {
    var q := a + |status|;
    && q < |s|
    && s[a..q] == status
    && '\n' !in status
    && s[q] == ')'
    && forall r :: q < r < LineEnd(s, q + 1) ==> s[r] != ')'
  }

  /** PATTERN matches `s` at start `i` with groups `version` and `status`. */
  predicate LabelMatchAt(s: string, i: nat, version: string, status: string) {
    HeadAt(s, i, version) && StatusAt(s, i + |Prefix| + |version| + 2, status)
  }

  /** PATTERN matches somewhere in `s`. */
  ghost predicate LabelMatches(s: string) {
    exists i: nat, version, status :: LabelMatchAt(s, i, version, status)
  }

  /** The match `re.search` reports: the one with the leftmost start. */
  ghost predicate LeftmostLabelMatch(s: string, i: nat, version: string, status: string) {
    && LabelMatchAt(s, i, version, status)
    && forall j: nat, v, st :: j < i ==> !LabelMatchAt(s, j, v, st)
  }

  /** Where the status group starts when `Python <digit>.<digits> (` stands at `i`; the digit run is taken whole. */
  function StatusStart(s: string, i: nat): Option<nat>
  {
    if i + 9 <= |s| && s[i..i + 7] == Prefix && IsDigit(s[i + 7]) && s[i + 8] == '.' then
      var e := DigitsEnd(s, i + 9);
      if i + 9 < e && e + 2 <= |s| && s[e] == ' ' && s[e + 1] == '(' then Some(e + 2) else None
    else None
  }

  /** Where the status group ends: at the last `)` of the line, found by backtracking the greedy `.*`. */
  function StatusEnd(s: string, a: nat): Option<nat>
    requires a <= |s|
  {
    LastIndexOf(s, ')', a, LineEnd(s, a))
  }

  /** The backtracking matcher at one start position. */
  function MatchAt(s: string, i: nat): Option<(string, string)>
  {
    match StatusStart(s, i)
    case None => None
    case Some(a) =>
      match StatusEnd(s, a)
      case None => None
      case Some(q) => Some((s[i + 7..a - 2], s[a..q]))
  }

  lemma DigitsEndIs(s: string, k: nat, e: nat)
    requires k <= e <= |s|
    requires forall j :: k <= j < e ==> IsDigit(s[j])
    requires e == |s| || !IsDigit(s[e])
    ensures DigitsEnd(s, k) == e
  {
  }

  lemma StatusStartSound(s: string, i: nat)
    requires StatusStart(s, i).Some?
    ensures var a := StatusStart(s, i).value; i + 9 < a <= |s| && HeadAt(s, i, s[i + 7..a - 2])
  {

  }

  lemma StatusStartComplete(s: string, i: nat, version: string)
    requires HeadAt(s, i, version)
    ensures StatusStart(s, i) == Some(i + |Prefix| + |version| + 2)
  {
    var e := i + 7 + |version|;
    assert s[i + 7] == version[0] && s[i + 8] == version[1];
    forall j | i + 9 <= j < e ensures IsDigit(s[j]) {
      assert s[j] == version[j - (i + 7)];
    }
    DigitsEndIs(s, i + 9, e);
  }

  lemma StatusEndSound(s: string, a: nat)
    requires a <= |s| && StatusEnd(s, a).Some?
    ensures StatusAt(s, a, s[a..StatusEnd(s, a).value])
  {

  }

  lemma StatusEndComplete(s: string, a: nat, status: string)
    requires a <= |s| && StatusAt(s, a, status)
    ensures StatusEnd(s, a) == Some(a + |status|)
  {

  }

  /** Position-by-position agreement of the matcher with the definition, both directions. */
  lemma MatchAtIff(s: string, i: nat, version: string, status: string)
    ensures MatchAt(s, i) == Some((version, status)) <==> LabelMatchAt(s, i, version, status)
  {
    if MatchAt(s, i) == Some((version, status)) {
      StatusStartSound(s, i);
      StatusEndSound(s, StatusStart(s, i).value);
    }
    if LabelMatchAt(s, i, version, status) {
      StatusStartComplete(s, i, version);
      var a := i + |Prefix| + |version| + 2;
      StatusEndComplete(s, a, status);
    }
  }

  datatype Match = Match(start: nat, version: string, status: string)

  /** `re.search` from start position `i` on. */
  function SearchFrom(s: string, i: nat): Option<Match>
    decreases |s| + 1 - i
  {
    if i > |s| then None
    else match MatchAt(s, i)
      case Some(groups) => Some(Match(i, groups.0, groups.1))
      case None => SearchFrom(s, i + 1)
  }

  lemma {:induction false} SearchFromSpec(s: string, i: nat)
    ensures SearchFrom(s, i).Some? ==>
      var m := SearchFrom(s, i).value;
      && i <= m.start
      && MatchAt(s, m.start) == Some((m.version, m.status))
      && forall j: nat :: i <= j < m.start ==> MatchAt(s, j).None?
    ensures SearchFrom(s, i).None? ==> forall j: nat :: i <= j ==> MatchAt(s, j).None?
    decreases |s| + 1 - i
  {
    if i <= |s| && MatchAt(s, i).None? {
      SearchFromSpec(s, i + 1);
    }
  }

  /**
   * The `latest_versions` label parse: the two groups of the leftmost PATTERN
   * match, or the raw text and an empty status when PATTERN does not match.
   */
  function ParseLabel(text: string): (string, string)
  {
    match SearchFrom(text, 0)
    case Some(m) => (m.version, m.status)
    case None => (text, "")
  }

  /** What `re.search(PATTERN, s)` reports is the leftmost match. */
  lemma SearchFindsLeftmost(s: string)
    requires SearchFrom(s, 0).Some?
    ensures var m := SearchFrom(s, 0).value; LeftmostLabelMatch(s, m.start, m.version, m.status)
  {
    SearchFromSpec(s, 0);
    var m := SearchFrom(s, 0).value;
    MatchAtIff(s, m.start, m.version, m.status);
    forall j: nat, v, st | j < m.start ensures !LabelMatchAt(s, j, v, st) {
      MatchAtIff(s, j, v, st);
    }
  }

  /** `re.search(PATTERN, s)` reports no match only when PATTERN matches nowhere. */
  lemma SearchMissesOnlyNonMatches(s: string)
    requires SearchFrom(s, 0).None?
    ensures !LabelMatches(s)
  {
    SearchFromSpec(s, 0);
    forall j: nat, v, st ensures !LabelMatchAt(s, j, v, st) {
      MatchAtIff(s, j, v, st);
    }
  }

  lemma ParseLabelSpec(text: string)
    ensures !LabelMatches(text) ==> ParseLabel(text) == (text, "")
    ensures LabelMatches(text) ==> exists i: nat :: LeftmostLabelMatch(text, i, ParseLabel(text).0, ParseLabel(text).1)
    ensures LabelMatches(text) ==> IsVersion(ParseLabel(text).0) && '\n' !in ParseLabel(text).1
  {
    match SearchFrom(text, 0)
    case Some(m) =>
      SearchFindsLeftmost(text);
      assert ParseLabel(text) == (m.version, m.status);
      assert LeftmostLabelMatch(text, m.start, ParseLabel(text).0, ParseLabel(text).1);
    case None =>
      SearchMissesOnlyNonMatches(text);
  }

  /**
   * FILE matches `s` with its `.+` starting at `i` and its `$` at `p`:
   * at least one non-newline character, then the suffix, then the end of
   * `s` or a newline that ends `s`.
   */
  predicate ArchiveMatchAt(s: string, i: nat, p: nat) {
    && i + |ArchiveSuffix| < p <= |s|
    && (forall k :: i <= k < p - |ArchiveSuffix| ==> s[k] != '\n')
    && s[p - |ArchiveSuffix|..p] == ArchiveSuffix
    && (p == |s| || (p == |s| - 1 && s[p] == '\n'))
  }

  /** The suffix ends at `p` and a character other than a newline stands before it. */
  predicate ArchiveEndsAt(s: string, p: nat)
    requires p <= |s|
  {
    p > |ArchiveSuffix| && s[p - |ArchiveSuffix|..p] == ArchiveSuffix && s[p - |ArchiveSuffix| - 1] != '\n'
  }

  /** `re.search(FILE, href)` succeeds: checked at the two places `$` can match. */
  predicate IsArchiveHref(href: string) {
    ArchiveEndsAt(href, |href|) || (|href| > 0 && href[|href| - 1] == '\n' && ArchiveEndsAt(href, |href| - 1))
  }

  lemma IsArchiveHrefIff(href: string)
    ensures IsArchiveHref(href) <==> exists i: nat, p: nat :: ArchiveMatchAt(href, i, p)
  {
    var n := |ArchiveSuffix|;
    if ArchiveEndsAt(href, |href|) {
      assert ArchiveMatchAt(href, |href| - n - 1, |href|);
    } else if |href| > 0 && href[|href| - 1] == '\n' && ArchiveEndsAt(href, |href| - 1) {
      assert ArchiveMatchAt(href, |href| - 1 - n - 1, |href| - 1);
    }
    if exists i: nat, p: nat :: ArchiveMatchAt(href, i, p) {
      var i: nat, p: nat :| ArchiveMatchAt(href, i, p);
      assert href[p - n - 1] != '\n';
    }
  }
}
