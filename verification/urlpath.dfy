/** The file name of the download: Python's `str.split` on a one-character
    separator, and the last element of its result. */
module UrlPath {

  /** Index of the first occurrence of `c` in `s`. */
  function IndexOf(s: string, c: char): (k: nat)
    requires c in s
    ensures k < |s| && s[k] == c && c !in s[..k]
  {
    if s[0] == c then 0 else 1 + IndexOf(s[1..], c)
  }

  /** An occurrence of `c` with no earlier one is the first occurrence. */
  lemma {:induction false} IndexOfIs(s: string, c: char, k: nat)
    requires k < |s| && s[k] == c && c !in s[..k]
    ensures IndexOf(s, c) == k
  {
    if k > 0 {
      assert s[0] == s[..k][0];
      assert s[1..][..k - 1] == s[..k][1..];
      IndexOfIs(s[1..], c, k - 1);
    }
  }

  /** `s.split(sep)`: the pieces between consecutive separators. The empty
      string splits into one empty piece, and adjacent separators give empty
      pieces. */
  function Split(s: string, sep: char): (parts: seq<string>)
    decreases |s|
  {
    if sep !in s then [s]
    else
      var k := IndexOf(s, sep);
      [s[..k]] + Split(s[k + 1..], sep)
  }

  /** `sep.join(parts)`. */
  function Join(parts: seq<string>, sep: char): string {
    if |parts| == 0 then []
    else if |parts| == 1 then parts[0]
    else parts[0] + [sep] + Join(parts[1..], sep)
  }

  /** The pieces never contain the separator, and there is always at least one. */
  lemma {:induction false} SplitParts(s: string, sep: char)
    ensures |Split(s, sep)| >= 1
    ensures forall j :: 0 <= j < |Split(s, sep)| ==> sep !in Split(s, sep)[j]
    decreases |s|
  {
    if sep in s {
      var k := IndexOf(s, sep);
      SplitParts(s[k + 1..], sep);
    }
  }

  /** Joining the pieces with the separator gives back the string. */
  lemma {:induction false} JoinSplit(s: string, sep: char)
    ensures Join(Split(s, sep), sep) == s
    decreases |s|
  {
    if sep in s {
      var k := IndexOf(s, sep);
      var rest := Split(s[k + 1..], sep);
      SplitParts(s[k + 1..], sep);
      JoinSplit(s[k + 1..], sep);
      assert ([s[..k]] + rest)[1..] == rest;
      assert s == s[..k] + [sep] + s[k + 1..];
    }
  }

  /** A separator-free piece and a separator at the front split off as the
      first piece. */
  lemma SplitCons(x: string, sep: char, tail: string)
    requires sep !in x
    ensures Split(x + [sep] + tail, sep) == [x] + Split(tail, sep)
  {
    var s := x + [sep] + tail;
    var k := |x|;
    assert s[..k] == x;
    IndexOfIs(s, sep, k);
    assert s[k + 1..] == tail;
  }

  /** Splitting a join of separator-free pieces gives back the pieces. */
  lemma {:induction false} SplitJoin(parts: seq<string>, sep: char)
    requires |parts| >= 1
    requires forall j :: 0 <= j < |parts| ==> sep !in parts[j]
    ensures Split(Join(parts, sep), sep) == parts
  {
    if |parts| > 1 {
      SplitCons(parts[0], sep, Join(parts[1..], sep));
      SplitJoin(parts[1..], sep);
      assert parts == [parts[0]] + parts[1..];
    }
  }

  /** The last piece characterised without reference to `Split`: a suffix
      free of the separator that is either the whole string or comes right
      after a separator. */
  predicate IsLastPiece(s: string, sep: char, last: string) {
    && |last| <= |s|
    && s[|s| - |last|..] == last
    && sep !in last
    && (last == s || (|last| < |s| && s[|s| - |last| - 1] == sep))
  }

  /** The last piece of a split is the last piece. */
  lemma {:induction false} SplitLast(s: string, sep: char)
    ensures |Split(s, sep)| >= 1
    ensures IsLastPiece(s, sep, Split(s, sep)[|Split(s, sep)| - 1])
    decreases |s|
  {
    if sep in s {
      var k := IndexOf(s, sep);
      var rest := Split(s[k + 1..], sep);
      SplitLast(s[k + 1..], sep);
      LastOfCons(s[..k], rest);
      LastPieceAfterSeparator(s, sep, k, rest[|rest| - 1]);
    }
  }

  /** Putting a piece in front keeps the last piece. */
  lemma LastOfCons(x: string, rest: seq<string>)
    requires |rest| >= 1
    ensures ([x] + rest)[|rest|] == rest[|rest| - 1]
  {
  }

  /** The last piece after a separator is the last piece of the whole string. */
  lemma LastPieceAfterSeparator(s: string, sep: char, k: nat, last: string)
    requires k < |s| && s[k] == sep
    requires IsLastPiece(s[k + 1..], sep, last)
    ensures IsLastPiece(s, sep, last)
  {
    var t := s[k + 1..];
    assert t[|t| - |last|..] == s[|s| - |last|..];
    if last == t {
      assert s[|s| - |last| - 1] == s[k];
    } else {
      assert s[|s| - |last| - 1] == t[|t| - |last| - 1];
    }
  }

  /** The file name: what follows the last slash, or the whole string. */
  predicate IsLastSegment(url: string, name: string) {
    IsLastPiece(url, '/', name)
  }

  /** `url.split("/")[-1]`. The split result is never empty, so the index is
      always valid. */
  function LastSegment(url: string): (name: string)
    ensures IsLastSegment(url, name)
  {
    SplitLast(url, '/');
    var parts := Split(url, '/');
    parts[|parts| - 1]
  }

  /** Only one suffix of `url` is its last segment. */
  lemma LastSegmentUnique(url: string, a: string, b: string)
    requires IsLastSegment(url, a) && IsLastSegment(url, b)
    ensures a == b
  {
  }

  /** `LastSegment` returns exactly the last segment. */
  lemma LastSegmentIff(url: string, name: string)
    ensures LastSegment(url) == name <==> IsLastSegment(url, name)
  {
    if IsLastSegment(url, name) {
      LastSegmentUnique(url, LastSegment(url), name);
    }
  }

  /** The file name after the last slash of a path is what comes out. */
  lemma LastSegmentOfPath(base: string, name: string)
    requires '/' !in name
    ensures LastSegment(base + "/" + name) == name
  {
    var url := base + "/" + name;
    assert url[|url| - |name|..] == name;
    assert url[|url| - |name| - 1] == '/';
    LastSegmentIff(url, name);
  }

  /** A string without a slash is its own last segment. */
  lemma LastSegmentNoSlash(url: string)
    requires '/' !in url
    ensures LastSegment(url) == url
  {
    LastSegmentIff(url, url);
  }
}
