/** The string operations the extractors rely on: substring test, newline replacement, splitting on a separator. */
module Text {
  import opened Results

  predicate IsDigit(c: char) {
    '0' <= c <= '9'
  }

  /** `sub` occurs in `s` starting at index `i`. */
  predicate OccursAt(s: string, sub: string, i: int) {
    0 <= i && i + |sub| <= |s| && s[i..i + |sub|] == sub
  }

  /** Python's `sub in s`, computed by trying every start position from the left. */
  predicate Contains(s: string, sub: string)
    decreases |s|
  {
    (|sub| <= |s| && s[..|sub|] == sub) || (|s| > 0 && Contains(s[1..], sub))
  }

  lemma {:induction false} ContainsIff(s: string, sub: string)
    ensures Contains(s, sub) <==> exists i :: OccursAt(s, sub, i)
    decreases |s|
  {
    if |sub| <= |s| && s[..|sub|] == sub {
      assert OccursAt(s, sub, 0);
    } else if |s| > 0 {
      ContainsIff(s[1..], sub);
      if Contains(s[1..], sub) {
        var i :| OccursAt(s[1..], sub, i);
        assert s[i + 1..i + 1 + |sub|] == s[1..][i..i + |sub|];
        assert OccursAt(s, sub, i + 1);
      } else {
        forall i | OccursAt(s, sub, i) ensures false {
          assert i != 0;
          assert s[1..][i - 1..i - 1 + |sub|] == s[i..i + |sub|];
          assert OccursAt(s[1..], sub, i - 1);
        }
      }
    }
  }

  /** Python's `s.replace('\n', ' ')`: every newline becomes one space, nothing else changes. */
  function ReplaceNewlines(s: string): (r: string)
    ensures |r| == |s|
    ensures forall k :: 0 <= k < |s| ==> r[k] == (if s[k] == '\n' then ' ' else s[k])
  {
    if s == [] then []
    else [if s[0] == '\n' then ' ' else s[0]] + ReplaceNewlines(s[1..])
  }

  lemma ReplaceNewlinesClean(s: string)
    ensures '\n' !in ReplaceNewlines(s)
    ensures forall k :: 0 <= k < |s| && s[k] != '\n' ==> ReplaceNewlines(s)[k] == s[k]
  {

  }

  /** The end of the run of digits that starts at `k`. */
  function DigitsEnd(s: string, k: nat): (e: nat)
    requires k <= |s|
    ensures k <= e <= |s|
    ensures forall j :: k <= j < e ==> IsDigit(s[j])
    ensures e == |s| || !IsDigit(s[e])
    decreases |s| - k
  {
    if k == |s| || !IsDigit(s[k]) then k else DigitsEnd(s, k + 1)
  }

  /** The end of the line that position `k` is on: the first newline at or after `k`, or the end of `s`. */
  function LineEnd(s: string, k: nat): (e: nat)
    requires k <= |s|
    ensures k <= e <= |s|
    ensures '\n' !in s[k..e]
    ensures e == |s| || s[e] == '\n'
    decreases |s| - k
  {
    if k == |s| || s[k] == '\n' then k else LineEnd(s, k + 1)
  }

  /** The last index in `[lo, hi)` that holds `c`, if any. */
  function LastIndexOf(s: string, c: char, lo: nat, hi: nat): (r: Option<nat>)
    requires lo <= hi <= |s|
    ensures r.Some? ==> lo <= r.value < hi && s[r.value] == c
    ensures r.Some? ==> forall j :: r.value < j < hi ==> s[j] != c
    ensures r.None? ==> forall j :: lo <= j < hi ==> s[j] != c
    decreases hi - lo
  {
    if lo == hi then None
    else if s[hi - 1] == c then Some(hi - 1)
    else LastIndexOf(s, c, lo, hi - 1)
  }

  /** Python's `s.split(sep)`: the pieces between separators, as many as separators plus one. */
  function Split(s: string, sep: char): (parts: seq<string>)
    ensures |parts| >= 1
    ensures forall k :: 0 <= k < |parts| ==> sep !in parts[k]
    decreases |s|
  {
    if s == [] then [[]]
    else
      var rest := Split(s[1..], sep);
      if s[0] == sep then [[]] + rest
      else [[s[0]] + rest[0]] + rest[1..]
  }

  /** `sep.join(parts)`, the inverse of Split. */
  function Join(parts: seq<string>, sep: char): string
    requires |parts| >= 1
    decreases |parts|
  {
    if |parts| == 1 then parts[0] else parts[0] + [sep] + Join(parts[1..], sep)
  }

  lemma {:induction false} JoinSplit(s: string, sep: char)
    ensures Join(Split(s, sep), sep) == s
    decreases |s|
  {
    if s != [] {
      JoinSplit(s[1..], sep);
      var rest := Split(s[1..], sep);
      if s[0] != sep && |rest| > 1 {
        assert rest == [rest[0]] + rest[1..];
        assert Join(rest, sep) == rest[0] + [sep] + Join(rest[1..], sep);
        assert s == [s[0]] + s[1..];
      }
    }
  }

  lemma {:induction false} SplitPlain(w: string, sep: char)
    requires sep !in w
    ensures Split(w, sep) == [w]
    decreases |w|
  {
    if w != [] {
      SplitPlain(w[1..], sep);
      assert w == [w[0]] + w[1..];
    }
  }

  lemma {:induction false} SplitAtSeparator(w: string, sep: char, t: string)
    requires sep !in w
    ensures Split(w + [sep] + t, sep) == [w] + Split(t, sep)
    decreases |w|
  {
    var s := w + [sep] + t;
    if w == [] {
      assert s[1..] == t;
    } else {
      assert s[1..] == w[1..] + [sep] + t;
      SplitAtSeparator(w[1..], sep, t);
      assert [s[0]] + w[1..] == w;
    }
  }

  lemma {:induction false} SplitJoin(parts: seq<string>, sep: char)
    requires |parts| >= 1
    requires forall k :: 0 <= k < |parts| ==> sep !in parts[k]
    ensures Split(Join(parts, sep), sep) == parts
    decreases |parts|
  {
    if |parts| == 1 {
      SplitPlain(parts[0], sep);
    } else {
      SplitJoin(parts[1..], sep);
      SplitAtSeparator(parts[0], sep, Join(parts[1..], sep));
      assert parts == [parts[0]] + parts[1..];
    }
  }

  /** Python's `s.split('/')[-1]`: the last `/`-separated segment. */
  function LastSegment(s: string): string
  {
    var parts := Split(s, '/');
    parts[|parts| - 1]
  }

  /** The last segment is the longest suffix of `s` without a slash. */
  lemma {:induction false} LastSegmentSpec(s: string)
    ensures var r := LastSegment(s);
      && '/' !in r
      && |r| <= |s| && s[|s| - |r|..] == r
      && (|r| == |s| || s[|s| - |r| - 1] == '/')
    ensures |Split(s, '/')| == 1 <==> LastSegment(s) == s
    decreases |s|
  {
    if s != [] {
      LastSegmentSpec(s[1..]);
      var rest := Split(s[1..], '/');
      if s[0] != '/' && |rest| == 1 {
        JoinSplit(s[1..], '/');
        assert s == [s[0]] + s[1..];
      }
    }
  }

  /** Whatever precedes the last slash, the segment after it is the file name. */
  lemma LastSegmentAfterSlash(p: string, tail: string)
    requires '/' !in tail
    ensures LastSegment(p + "/" + tail) == tail
  {
    var s := p + "/" + tail;
    var name := LastSegment(s);
    LastSegmentSpec(s);
    assert s[|p|] == '/';
    forall k | |p| < k < |s| ensures s[k] != '/' {
      assert s[k] == tail[k - |p| - 1];
    }
    assert s[|p| + 1..] == tail;
  }
}
