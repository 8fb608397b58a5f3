/** Concrete inputs worked through the model: the label parse, the archive pattern and the file name. */
module Scenarios {
  import opened Text
  import opened Patterns

  /** A label in the documented form yields its version and status. */
  lemma BugfixLabel()
    ensures ParseLabel("Python 3.11 (bugfix)") == ("3.11", "bugfix")
  {
    var s := "Python 3.11 (bugfix)";
    assert s[0..7] == Prefix;
    assert s[7..11] == "3.11";
    assert s[13..19] == "bugfix";
    assert LineEnd(s, 20) == 20;
    assert LabelMatchAt(s, 0, "3.11", "bugfix");
    MatchAtIff(s, 0, "3.11", "bugfix");
  }

  /** A label without the parenthesised status is kept whole, with an empty status. */
  lemma LabelWithoutStatus()
    ensures ParseLabel("Python 2.7") == ("Python 2.7", "")
  {

  }

  /** The greedy status runs to the last `)` of the line and stops at a newline. */
  lemma GreedyStatus()
    ensures ParseLabel("Python 3.9 (a) (b)\n)") == ("3.9", "a) (b")
  {
    var s := "Python 3.9 (a) (b)\n)";
    assert s[0..7] == Prefix;
    assert s[7..10] == "3.9";
    assert s[12..17] == "a) (b";
    assert s[18] == '\n' && LineEnd(s, 18) == 18;
    assert LabelMatchAt(s, 0, "3.9", "a) (b");
    MatchAtIff(s, 0, "3.9", "a) (b");
  }

  /** The A4 archive name matches FILE; the letter-size one does not. */
  lemma ArchiveNames()
    ensures IsArchiveHref("archive/python-3.12-docs-pdf-a4.zip")
    ensures !IsArchiveHref("archive/python-3.12-docs-pdf-letter.zip")
    ensures !IsArchiveHref("pdf-a4.zip")
  {
    var a := "archive/python-3.12-docs-pdf-a4.zip";
    assert a[|a| - 10..] == ArchiveSuffix;
    var b := "archive/python-3.12-docs-pdf-letter.zip";
    assert b[|b| - 10..] != ArchiveSuffix by { assert b[|b| - 10] != ArchiveSuffix[0]; }
  }

  /** The file name of an archive URL is its last path segment. */
  lemma ArchiveFileName()
    ensures LastSegment("archive/3.12/python-3.12-docs-pdf-a4.zip") == "python-3.12-docs-pdf-a4.zip"
  {
    var tail := "python-3.12-docs-pdf-a4.zip";
    var s := "archive/3.12/python-3.12-docs-pdf-a4.zip";
    var u := "archive/3.12" + "/" + tail;
    assert |u| == |s|;
    forall k | 0 <= k < |s| ensures u[k] == s[k] {}
    assert u == s;
    LastSegmentAfterSlash("archive/3.12", tail);
  }
}
