/** Version extraction from the AppImage file name: the search of the regular
    expression `LM-Studio-([\d.]+)-(?:\d+-)?x64\.AppImage`, returning group 1
    of the leftmost match or failing with the file name. Digits are the ASCII
    digits. */
module Version {
  import opened Results
  import opened Text

  const Prefix := "LM-Studio-"
  const Suffix := "x64.AppImage"

  predicate IsDigit(c: char) {
    '0' <= c <= '9'
  }

  /** The class `[\d.]`. */
  predicate IsVersionChar(c: char) {
    IsDigit(c) || c == '.'
  }

  /** What group 1 can hold: a non-empty run of digits and dots. No shape such
      as three dot-separated numbers is required. */
  predicate IsVersion(v: string) {
    |v| > 0 && forall k :: 0 <= k < |v| ==> IsVersionChar(v[k])
  }

  /** What the optional group `(?:\d+-)?` can match: nothing, or digits
      followed by `-`. */
  predicate IsRelease(rel: string) {
    rel == [] || (|rel| >= 2 && rel[|rel| - 1] == '-' && forall k :: 0 <= k < |rel| - 1 ==> IsDigit(rel[k]))
  }

  /** The text matched by the whole pattern for a given group 1 and release part. */
  function Candidate(v: string, rel: string): string {
    Prefix + v + "-" + rel + Suffix
  }

  /** The regular expression matches at index `i` with group 1 equal to `v`. */
  ghost predicate MatchesAt(s: string, i: nat, v: string) {
    IsVersion(v) && exists rel :: IsRelease(rel) && StartsAt(s, i, Candidate(v, rel))
  }

  /** The match that `re.search` reports: the one at the smallest index. */
  ghost predicate LeftmostMatch(s: string, i: nat, v: string) {
    MatchesAt(s, i, v) && forall j: nat, w :: j < i ==> !MatchesAt(s, j, w)
  }

  /** Length of the longest run of characters satisfying `p` that starts at `j`. */
  function Span(p: char -> bool, s: string, j: nat): (n: nat)
    requires j <= |s|
    ensures j + n <= |s|
    decreases |s| - j
  {
    if j < |s| && p(s[j]) then 1 + Span(p, s, j + 1) else 0
  }

  /** The run is made of `p` characters and stops at the end of `s` or at a
      character outside `p`. */
  lemma {:induction false} SpanRun(p: char -> bool, s: string, j: nat)
    requires j <= |s|
    ensures forall k :: j <= k < j + Span(p, s, j) ==> p(s[k])
    ensures j + Span(p, s, j) == |s| || !p(s[j + Span(p, s, j)])
    decreases |s| - j
  {
    if j < |s| && p(s[j]) {
      SpanRun(p, s, j + 1);
    }
  }

  /** A run of `p` characters that cannot be extended is the longest run. */
  lemma {:induction false} SpanUnique(p: char -> bool, s: string, j: nat, n: nat)
    requires j + n <= |s|
    requires forall k :: j <= k < j + n ==> p(s[k])
    requires j + n == |s| || !p(s[j + n])
    ensures Span(p, s, j) == n
    decreases n
  {
    if n > 0 {
      SpanUnique(p, s, j + 1, n - 1);
    }
  }

  /** What may follow the dash after group 1: `(?:\d+-)?x64\.AppImage` at `b`.
      The digits of the optional group are, as for group 1, the longest run. */
  predicate TailAt(s: string, b: nat)
    requires b <= |s|
  {
    || StartsAt(s, b, Suffix)
    || (var d := Span(IsDigit, s, b); d > 0 && StartsAt(s, b + d, "-" + Suffix))
  }

  /** The matcher after the prefix, from the index `a` where group 1 starts.
      Group 1 is the longest digit/dot run: it must be followed by `-`, which
      is not in the class, so no backtracking into it can produce another
      match. */
  function GroupAt(s: string, a: nat): (r: Option<string>)
    requires a <= |s|
    ensures r.Some? ==> IsVersion(r.value)
  {
    SpanRun(IsVersionChar, s, a);
    var n := Span(IsVersionChar, s, a);
    if n > 0 && StartsAt(s, a + n, "-") && TailAt(s, a + n + 1) then Some(s[a..a + n]) else None
  }

  /** The matcher at one index. */
  function MatchAt(s: string, i: nat): (r: Option<string>)
    requires i <= |s|
    ensures r.Some? ==> IsVersion(r.value)
  {
    if StartsAt(s, i, Prefix) then GroupAt(s, i + |Prefix|) else None
  }

  /** Splits an occurrence of a candidate into its parts. */
  lemma CandidateParts(s: string, i: nat, v: string, rel: string)
    ensures StartsAt(s, i, Candidate(v, rel)) <==>
      && StartsAt(s, i, Prefix)
      && StartsAt(s, i + |Prefix|, v)
      && StartsAt(s, i + |Prefix| + |v|, "-")
      && StartsAt(s, i + |Prefix| + |v| + 1, rel + Suffix)
  {
    assert Candidate(v, rel) == Prefix + v + "-" + (rel + Suffix);
    StartsAtFour(s, i, Prefix, v, "-", rel + Suffix);
  }

  /** The release part a successful tail check has read: nothing, or the
      digit run and its dash. */
  function TailRelease(s: string, b: nat): string
    requires b <= |s| && TailAt(s, b)
  {
    if StartsAt(s, b, Suffix) then [] else s[b..b + Span(IsDigit, s, b) + 1]
  }

  /** The tail check accepts only texts `rel + Suffix` with `rel` a release
      part. */
  lemma TailAtSound(s: string, b: nat)
    requires b <= |s| && TailAt(s, b)
    ensures IsRelease(TailRelease(s, b)) && StartsAt(s, b, TailRelease(s, b) + Suffix)
  {
    if StartsAt(s, b, Suffix) {
      assert [] + Suffix == Suffix;
    } else {
      SpanRun(IsDigit, s, b);
      DigitReleaseSound(s, b, Span(IsDigit, s, b));
    }
  }

  /** Digits followed by `-` and the suffix are a release part and the suffix. */
  lemma DigitReleaseSound(s: string, b: nat, d: nat)
    requires 0 < d && b + d <= |s|
    requires forall k :: b <= k < b + d ==> IsDigit(s[k])
    requires StartsAt(s, b + d, "-" + Suffix)
    ensures IsRelease(s[b..b + d + 1]) && StartsAt(s, b, s[b..b + d + 1] + Suffix)
  {
    StartsAtConcat(s, b + d, "-", Suffix);
    StartsAtExtend(s, b, d + 1, Suffix);
    assert s[b + d] == s[b + d..b + d + 1][0] == '-';
  }

  lemma TailAtComplete(s: string, b: nat, rel: string)
    requires IsRelease(rel) && StartsAt(s, b, rel + Suffix)
    ensures TailAt(s, b)
  {
    StartsAtConcat(s, b, rel, Suffix);
    if rel != [] {
      var d := |rel| - 1;
      assert rel == rel[..d] + "-";
      assert rel + Suffix == rel[..d] + ("-" + Suffix);
      StartsAtConcat(s, b, rel[..d], "-" + Suffix);
      forall k | b <= k < b + d
        ensures IsDigit(s[k])
      {
        assert s[k] == s[b..b + d][k - b] == rel[k - b];
      }
      assert s[b + d] == '-' by {
        StartsAtConcat(s, b + d, "-", Suffix);
        assert s[b + d] == s[b + d..b + d + 1][0];
      }
      SpanUnique(IsDigit, s, b, d);
    }
  }

  /** What a successful `GroupAt` has checked. */
  lemma GroupAtParts(s: string, a: nat)
    requires a <= |s| && GroupAt(s, a).Some?
    ensures var n := |GroupAt(s, a).value|;
      && a + n < |s|
      && StartsAt(s, a, GroupAt(s, a).value)
      && StartsAt(s, a + n, "-")
      && TailAt(s, a + n + 1)
  {
    var n := Span(IsVersionChar, s, a);
    assert GroupAt(s, a).value == s[a..a + n];
  }

  /** Whatever the matcher reports after the prefix is a group 1, a dash and
      an accepted tail. */
  lemma GroupAtSound(s: string, a: nat)
    requires a <= |s| && GroupAt(s, a).Some?
    ensures var v := GroupAt(s, a).value;
      && a + |v| < |s|
      && StartsAt(s, a, v)
      && StartsAt(s, a + |v|, "-")
      && TailAt(s, a + |v| + 1)
      && IsRelease(TailRelease(s, a + |v| + 1))
      && StartsAt(s, a + |v| + 1, TailRelease(s, a + |v| + 1) + Suffix)
  {
    GroupAtParts(s, a);
    TailAtSound(s, a + |GroupAt(s, a).value| + 1);
  }

  /** A successful `MatchAt` has found the prefix and handed over to `GroupAt`. */
  lemma MatchAtParts(s: string, i: nat)
    requires i <= |s| && MatchAt(s, i).Some?
    ensures i + |Prefix| <= |s| && StartsAt(s, i, Prefix) && MatchAt(s, i) == GroupAt(s, i + |Prefix|)
  {
  }

  /** Whatever the matcher reports is a match of the pattern. */
  lemma MatchAtSound(s: string, i: nat)
    requires i <= |s|
    ensures MatchAt(s, i).Some? ==> MatchesAt(s, i, MatchAt(s, i).value)
  {
    if MatchAt(s, i).Some? {
      MatchAtParts(s, i);
      var a := i + |Prefix|;
      var v := GroupAt(s, a).value;
      GroupAtSound(s, a);
      var rel := TailRelease(s, a + |v| + 1);
      CandidateParts(s, i, v, rel);
    }
  }

  /** A group 1 found in the text and followed by a dash is the longest
      digit/dot run there, so `GroupAt` accepts it when the tail is right. */
  lemma GroupAtComplete(s: string, a: nat, v: string, rel: string)
    requires IsVersion(v) && IsRelease(rel)
    requires StartsAt(s, a, v) && StartsAt(s, a + |v|, "-") && StartsAt(s, a + |v| + 1, rel + Suffix)
    ensures GroupAt(s, a) == Some(v)
  {
    forall k | a <= k < a + |v|
      ensures IsVersionChar(s[k])
    {
      assert s[k] == s[a..a + |v|][k - a] == v[k - a];
    }
    assert s[a + |v|] == s[a + |v|..a + |v| + 1][0] == '-';
    SpanUnique(IsVersionChar, s, a, |v|);
    TailAtComplete(s, a + |v| + 1, rel);
  }

  /** Every match of the pattern is found by the matcher, with the same group 1. */
  lemma MatchAtComplete(s: string, i: nat, v: string)
    ensures MatchesAt(s, i, v) ==> i <= |s| && MatchAt(s, i) == Some(v)
  {
    if MatchesAt(s, i, v) {
      var rel :| IsRelease(rel) && StartsAt(s, i, Candidate(v, rel));
      CandidateParts(s, i, v, rel);
      GroupAtComplete(s, i + |Prefix|, v, rel);
    }
  }

  /** At most one group 1 can match at a given index. */
  lemma MatchUniqueAtIndex(s: string, i: nat, v: string, w: string)
    requires MatchesAt(s, i, v) && MatchesAt(s, i, w)
    ensures v == w
  {
    MatchAtComplete(s, i, v);
    MatchAtComplete(s, i, w);
  }

  /** Group 1 of any match is the longest digit/dot run right after the prefix. */
  lemma MatchedVersionIsMaximalRun(s: string, i: nat, v: string)
    requires MatchesAt(s, i, v)
    ensures i + |Prefix| <= |s| && StartsAt(s, i, Prefix)
    ensures v == s[i + |Prefix|..i + |Prefix| + Span(IsVersionChar, s, i + |Prefix|)]
  {
    MatchAtComplete(s, i, v);
  }

  /** No index from `lo` up to `hi` (exclusive) and within `s` holds a match. */
  predicate NoMatchBetween(s: string, lo: nat, hi: nat) {
    forall k :: lo <= k < hi && k <= |s| ==> MatchAt(s, k).None?
  }

  /** The scan of `re.search`: the first start index, from `i` on, at which
      the pattern matches, or `|s| + 1` when there is none. */
  function FirstMatch(s: string, i: nat): (k: nat)
    requires i <= |s|
    ensures i <= k <= |s| + 1
    ensures NoMatchBetween(s, i, k)
    ensures k <= |s| ==> MatchAt(s, k).Some?
    decreases |s| - i
  {
    if MatchAt(s, i).Some? then i
    else if i == |s| then i + 1
    else FirstMatch(s, i + 1)
  }

  /** The version carried by a file name, or the error naming the file. */
  function ExtractVersion(filename: string): (r: Result<string>)
    ensures r.Ok? ==> IsVersion(r.value)
    ensures r.Err? ==> r.error == VersionNotFound(filename)
  {
    var k := FirstMatch(filename, 0);
    if k <= |filename| then Ok(MatchAt(filename, k).value) else Err(VersionNotFound(filename))
  }

  /** A successful extraction reports a match at some index, and no index
      before it matches. */
  lemma ExtractVersionFound(s: string, v: string)
    requires ExtractVersion(s) == Ok(v)
    ensures LeftmostMatch(s, FirstMatch(s, 0), v)
  {
    var j := FirstMatch(s, 0);
    MatchAtSound(s, j);
    forall k: nat, w | k < j
      ensures !MatchesAt(s, k, w)
    {
      MatchAtComplete(s, k, w);
    }
  }

  /** The leftmost match is the one reported. */
  lemma LeftmostMatchReported(s: string, i: nat, v: string)
    requires LeftmostMatch(s, i, v)
    ensures ExtractVersion(s) == Ok(v)
  {
    MatchAtComplete(s, i, v);
    var j := FirstMatch(s, 0);
    assert j <= i;
    MatchAtSound(s, j);
  }

  /** Extraction returns `v` exactly when the leftmost match of the pattern has
      group 1 equal to `v`. */
  lemma ExtractVersionLeftmost(s: string, v: string)
    ensures ExtractVersion(s) == Ok(v) <==> exists i: nat :: LeftmostMatch(s, i, v)
  {
    if ExtractVersion(s) == Ok(v) {
      ExtractVersionFound(s, v);
    }
    if exists i: nat :: LeftmostMatch(s, i, v) {
      var i: nat :| LeftmostMatch(s, i, v);
      LeftmostMatchReported(s, i, v);
    }
  }

  /** Extraction fails exactly when the pattern matches nowhere in the name:
      the error is never replaced by a default version. */
  lemma ExtractVersionFailsIffNoMatch(s: string)
    ensures ExtractVersion(s).Err? <==> forall i: nat, v :: !MatchesAt(s, i, v)
  {
    if ExtractVersion(s).Err? {
      forall i: nat, v
        ensures !MatchesAt(s, i, v)
      {
        MatchAtComplete(s, i, v);
      }
    } else {
      MatchAtSound(s, FirstMatch(s, 0));
    }
  }

  /** `LM-Studio-V-x64.AppImage` yields exactly V. */
  lemma ExtractPlainName(v: string)
    requires IsVersion(v)
    ensures ExtractVersion(Prefix + v + "-" + Suffix) == Ok(v)
  {
    var s := Prefix + v + "-" + Suffix;
    assert Candidate(v, []) == s;
    assert IsRelease([]);
    assert StartsAt(s, 0, Candidate(v, []));
    MatchAtComplete(s, 0, v);
  }

  /** `LM-Studio-V-R-x64.AppImage`, R a run of digits, yields V: the release
      number is dropped. */
  lemma ExtractDropsRelease(v: string, release: string)
    requires IsVersion(v)
    requires |release| > 0 && forall k :: 0 <= k < |release| ==> IsDigit(release[k])
    ensures ExtractVersion(Prefix + v + "-" + release + "-" + Suffix) == Ok(v)
  {
    var s := Prefix + v + "-" + release + "-" + Suffix;
    var rel := release + "-";
    assert Candidate(v, rel) == s;
    assert IsRelease(rel);
    assert StartsAt(s, 0, Candidate(v, rel));
    MatchAtComplete(s, 0, v);
  }

  /** Every match needs the prefix, one version character, the two dashes
      and the suffix. */
  lemma MatchNeedsRoom(s: string, i: nat, v: string)
    requires MatchesAt(s, i, v)
    ensures i + |Prefix| + |Suffix| + 2 <= |s|
  {
  }

  /** A name shorter than the shortest possible match has no version. */
  lemma ExtractShortNameFails(s: string)
    requires |s| < |Prefix| + |Suffix| + 2
    ensures ExtractVersion(s) == Err(VersionNotFound(s))
  {
    forall i: nat, v
      ensures !MatchesAt(s, i, v)
    {
      if MatchesAt(s, i, v) {
        MatchNeedsRoom(s, i, v);
      }
    }
    ExtractVersionFailsIffNoMatch(s);
  }

  /** The documented file name without a release number. */
  lemma ExtractDocumentedName(name: string)
    requires name == "LM-Studio-0.3.5-x64.AppImage"
    ensures ExtractVersion(name) == Ok("0.3.5")
  {
    assert IsVersion("0.3.5");
    assert name == Prefix + "0.3.5" + "-" + Suffix;
    ExtractPlainName("0.3.5");
  }

  /** The documented file name with release number 2. */
  lemma ExtractDocumentedReleaseName(name: string)
    requires name == "LM-Studio-0.3.5-2-x64.AppImage"
    ensures ExtractVersion(name) == Ok("0.3.5")
  {
    assert IsVersion("0.3.5");
    assert name == Prefix + "0.3.5" + "-" + "2" + "-" + Suffix;
    ExtractDropsRelease("0.3.5", "2");
  }

  /** The pattern does not insist on three components. */
  lemma ExtractFourComponents(name: string)
    requires name == "LM-Studio-1.2.3.4-x64.AppImage"
    ensures ExtractVersion(name) == Ok("1.2.3.4")
  {
    assert IsVersion("1.2.3.4") && IsRelease([]);
    assert name == Candidate("1.2.3.4", []);
    assert StartsAt(name, 0, Candidate("1.2.3.4", []));
    LeftmostMatchReported(name, 0, "1.2.3.4");
  }

  /** A name without a version is an error carrying that name. */
  lemma ExtractUnrelatedName(name: string)
    requires name == "random.txt"
    ensures ExtractVersion(name) == Err(VersionNotFound(name))
  {
    ExtractShortNameFails(name);
  }
}
