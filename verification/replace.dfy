/** Python's `str.replace(pat, rep)` with no count: every non-overlapping
    occurrence of `pat`, found scanning left to right, is replaced by `rep`. */
module Replace {
  import opened Text

  /** The replacement itself. An empty pattern matches before every character
      and at the end, as in Python (`"ab".replace("", "-") == "-a-b-"`). */
  function ReplaceAll(s: string, pat: string, rep: string): string
    decreases |s|
  {
    if |pat| == 0 then
      if |s| == 0 then rep else rep + [s[0]] + ReplaceAll(s[1..], pat, rep)
    else if pat <= s then
      rep + ReplaceAll(s[|pat|..], pat, rep)
    else if |s| == 0 then
      []
    else
      [s[0]] + ReplaceAll(s[1..], pat, rep)
  }

  /** A replacement at least as long as the pattern never shortens the string,
      and one at most as long never lengthens it. */
  lemma {:induction false} ReplaceAllLength(s: string, pat: string, rep: string)
    ensures |rep| >= |pat| ==> |ReplaceAll(s, pat, rep)| >= |s|
    ensures |rep| <= |pat| ==> |ReplaceAll(s, pat, rep)| <= |s|
    decreases |s|
  {
    if |pat| == 0 {
      if |s| > 0 {
        ReplaceAllLength(s[1..], pat, rep);
      }
    } else if pat <= s {
      ReplaceAllLength(s[|pat|..], pat, rep);
    } else if |s| > 0 {
      ReplaceAllLength(s[1..], pat, rep);
    }
  }

  /** Replacing a pattern by itself changes nothing. */
  lemma {:induction false} ReplaceAllSame(s: string, pat: string)
    ensures ReplaceAll(s, pat, pat) == s
    decreases |s|
  {
    if |pat| == 0 {
      if |s| > 0 {
        ReplaceAllSame(s[1..], pat);
      }
    } else if pat <= s {
      ReplaceAllSame(s[|pat|..], pat);
    } else if |s| > 0 {
      ReplaceAllSame(s[1..], pat);
    }
  }

  /** A pattern that does not occur leaves the string unchanged. */
  lemma {:induction false} ReplaceAllAbsent(s: string, pat: string, rep: string)
    requires |pat| > 0
    requires !Occurs(pat, s)
    ensures ReplaceAll(s, pat, rep) == s
    decreases |s|
  {
    if |s| > 0 {
      OccursUnfold(s, pat);
      ReplaceAllAbsent(s[1..], pat, rep);
    }
  }

  /** An occurring pattern (the empty one always occurs) replaced by a
      different string always changes the string. */
  lemma {:induction false} ReplaceAllChanges(s: string, pat: string, rep: string)
    requires pat != rep
    requires |pat| == 0 || Occurs(pat, s)
    ensures ReplaceAll(s, pat, rep) != s
    decreases |s|
  {
    var r := ReplaceAll(s, pat, rep);
    if |pat| == 0 {
      if |s| > 0 {
        ReplaceAllLength(s[1..], pat, rep);
      }
      assert |r| >= |rep| + |s|;
    } else if pat <= s {
      ReplaceAllLength(s[|pat|..], pat, rep);
      if |rep| == |pat| {
        assert r[..|rep|] == rep;
        assert s[..|pat|] == pat;
      }
    } else {
      var i: nat :| StartsAt(s, i, pat);
      OccursUnfold(s, pat);
      ReplaceAllChanges(s[1..], pat, rep);
      assert r[1..] == ReplaceAll(s[1..], pat, rep);
    }
  }

  /** The result equals the input exactly when the pattern is replaced by
      itself or does not occur at all. */
  lemma ReplaceAllIdentity(s: string, pat: string, rep: string)
    ensures ReplaceAll(s, pat, rep) == s <==> pat == rep || (|pat| > 0 && !Occurs(pat, s))
  {
    if pat == rep {
      ReplaceAllSame(s, pat);
    } else if |pat| > 0 && !Occurs(pat, s) {
      ReplaceAllAbsent(s, pat, rep);
    } else {
      ReplaceAllChanges(s, pat, rep);
    }
  }

  /** A string that is exactly the pattern becomes exactly the replacement. */
  lemma ReplaceAllWhole(pat: string, rep: string)
    requires |pat| > 0
    ensures ReplaceAll(pat, pat, rep) == rep
  {
    assert pat[|pat|..] == [];
    assert ReplaceAll(pat, pat, rep) == rep + ReplaceAll([], pat, rep);
  }

  /** A prefix free of the pattern's first character is copied unchanged and
      the scan resumes right after it. */
  lemma {:induction false} ReplaceAllFreePrefix(a: string, b: string, pat: string, rep: string)
    requires |pat| > 0
    requires pat[0] !in a
    ensures ReplaceAll(a + b, pat, rep) == a + ReplaceAll(b, pat, rep)
    decreases |a|
  {
    if |a| == 0 {
      assert a + b == b;
    } else {
      var c := a + b;
      assert c[0] == a[0] != pat[0];
      assert !(pat <= c);
      assert c[1..] == a[1..] + b;
      ReplaceAllFreePrefix(a[1..], b, pat, rep);
      assert ReplaceAll(c, pat, rep) == [a[0]] + ReplaceAll(a[1..] + b, pat, rep);
    }
  }

  /** No occurrence of `pat` in `a + b` begins inside `a` and ends inside `b`. */
  ghost predicate NoStraddle(a: string, b: string, pat: string) {
    forall i: nat :: i < |a| < i + |pat| ==> !StartsAt(a + b, i, pat)
  }

  /** Where no occurrence straddles the boundary, the left-to-right scan
      reaches the boundary exactly, so the replacement distributes over `+`. */
  lemma {:induction false} ReplaceAllSplit(a: string, b: string, pat: string, rep: string)
    requires |pat| > 0
    requires NoStraddle(a, b, pat)
    ensures ReplaceAll(a + b, pat, rep) == ReplaceAll(a, pat, rep) + ReplaceAll(b, pat, rep)
    decreases |a|
  {
    var c := a + b;
    if |a| == 0 {
      assert c == b;
    } else if pat <= c {
      assert StartsAt(c, 0, pat);
      assert |pat| <= |a|;
      assert pat <= a by {
        assert a[..|pat|] == c[..|pat|];
      }
      var a' := a[|pat|..];
      assert c[|pat|..] == a' + b;
      forall i: nat | i < |a'| < i + |pat|
        ensures !StartsAt(a' + b, i, pat)
      {
        StartsAtShift(c, |pat|, i, pat);
      }
      ReplaceAllSplit(a', b, pat, rep);
    } else {
      assert !(pat <= a) by {
        if |pat| <= |a| {
          assert a[..|pat|] == c[..|pat|];
        }
      }
      var a' := a[1..];
      assert c[1..] == a' + b;
      forall i: nat | i < |a'| < i + |pat|
        ensures !StartsAt(a' + b, i, pat)
      {
        StartsAtShift(c, 1, i, pat);
      }
      ReplaceAllSplit(a', b, pat, rep);
    }
  }

  /** `pat` and `t` cannot overlap in any string: neither occurs inside the
      other, and no proper suffix of one is a prefix of the other. */
  ghost predicate Isolated(pat: string, t: string) {
    && |pat| > 0
    && !Occurs(pat, t)
    && !Occurs(t, pat)
    && (forall k :: 0 < k < |pat| ==> !(pat[k..] <= t))
    && (forall k :: 0 < k < |t| ==> !(t[k..] <= pat))
  }

  /** No occurrence of a pattern isolated from `t` runs from before `t` into it. */
  lemma LeftOfIsolatedClear(a: string, t: string, b: string, pat: string)
    requires Isolated(pat, t)
    ensures NoStraddle(a, t + b, pat)
  {
    var c := a + (t + b);
    forall i: nat | i < |a| < i + |pat|
      ensures !StartsAt(c, i, pat)
    {
      if i + |pat| <= |c| {
        var x := c[i..i + |pat|];
        var k := |a| - i;
        if i + |pat| <= |a| + |t| {
          assert x[k..] == t[..|pat| - k];
          assert pat[k..] != t[..|pat| - k];
        } else {
          assert c[|a|..|a| + |t|] == t;
          assert i + k == |a|;
          assert x[k..k + |t|] == c[i + k..i + k + |t|];
          assert !StartsAt(pat, k, t);
        }
      }
    }
  }

  /** No occurrence of a pattern isolated from `t` runs from inside `t` past its end. */
  lemma RightOfIsolatedClear(t: string, b: string, pat: string)
    requires Isolated(pat, t)
    ensures NoStraddle(t, b, pat)
  {
    var tb := t + b;
    forall j: nat | j < |t| < j + |pat|
      ensures !StartsAt(tb, j, pat)
    {
      if j + |pat| <= |tb| {
        var x := tb[j..j + |pat|];
        if j == 0 {
          assert x[..|t|] == t;
          assert !StartsAt(pat, 0, t);
        } else {
          assert x[..|t| - j] == t[j..];
          assert !(t[j..] <= pat);
        }
      }
    }
  }

  /** Replacing a pattern isolated from `t` passes over every occurrence of
      `t` untouched, whatever surrounds it. */
  lemma ReplaceAllAroundIsolated(a: string, t: string, b: string, pat: string, rep: string)
    requires Isolated(pat, t)
    ensures ReplaceAll(a + t + b, pat, rep) == ReplaceAll(a, pat, rep) + t + ReplaceAll(b, pat, rep)
  {
    LeftOfIsolatedClear(a, t, b, pat);
    ReplaceAllSplit(a, t + b, pat, rep);
    RightOfIsolatedClear(t, b, pat);
    ReplaceAllSplit(t, b, pat, rep);
    ReplaceAllAbsent(t, pat, rep);
    assert a + t + b == a + (t + b);
  }
}
