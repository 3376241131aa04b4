/** Substring positions on strings (`seq<char>`), the vocabulary shared by the
    replacement, version and path modules. */
module Text {

  /** `t` occurs in `s` at index `i`. */
  predicate StartsAt(s: string, i: nat, t: string) {
    i + |t| <= |s| && s[i..i + |t|] == t
  }

  /** `t` occurs somewhere in `s`: Python's `t in s`. The empty string occurs
      in every string. */
  ghost predicate Occurs(t: string, s: string) {
    exists i: nat :: StartsAt(s, i, t)
  }

  /** An occurrence of a concatenation is an occurrence of each part, one after
      the other. */
  lemma StartsAtConcat(s: string, i: nat, x: string, y: string)
    ensures StartsAt(s, i, x + y) <==> StartsAt(s, i, x) && StartsAt(s, i + |x|, y)
  {
    if i + |x| + |y| <= |s| {
      assert s[i..i + |x| + |y|] == s[i..i + |x|] + s[i + |x|..i + |x| + |y|];
      if StartsAt(s, i, x + y) {
        assert s[i..i + |x|] == (x + y)[..|x|] == x;
        assert s[i + |x|..i + |x| + |y|] == (x + y)[|x|..] == y;
      }
    }
  }

  /** Occurrences in a suffix of `s` are occurrences in `s`, shifted. */
  lemma StartsAtShift(s: string, k: nat, i: nat, t: string)
    requires k <= |s|
    ensures StartsAt(s[k..], i, t) <==> StartsAt(s, k + i, t)
  {
    if k + i + |t| <= |s| {
      assert s[k..][i..i + |t|] == s[k + i..k + i + |t|];
    }
  }

  /** An occurrence of four concatenated parts is an occurrence of each part,
      one after the other. */
  lemma StartsAtFour(s: string, i: nat, w: string, x: string, y: string, z: string)
    ensures StartsAt(s, i, w + x + y + z) <==>
      && StartsAt(s, i, w)
      && StartsAt(s, i + |w|, x)
      && StartsAt(s, i + |w| + |x|, y)
      && StartsAt(s, i + |w| + |x| + |y|, z)
  {
    StartsAtConcat(s, i, w + x + y, z);
    StartsAtConcat(s, i, w + x, y);
    StartsAtConcat(s, i, w, x);
  }

  /** An occurrence of `u` extends backwards over the `n` characters before it. */
  lemma StartsAtExtend(s: string, i: nat, n: nat, u: string)
    requires i + n <= |s| && StartsAt(s, i + n, u)
    ensures StartsAt(s, i, s[i..i + n] + u)
  {
    assert s[i..i + n + |u|] == s[i..i + n] + s[i + n..i + n + |u|];
  }

  /** `t` occurs in a non-empty `s` exactly when it starts `s` or occurs in
      its tail. */
  lemma OccursUnfold(s: string, t: string)
    requires |s| > 0
    ensures Occurs(t, s) <==> StartsAt(s, 0, t) || Occurs(t, s[1..])
  {
    if Occurs(t, s) {
      var i: nat :| StartsAt(s, i, t);
      if i > 0 {
        StartsAtShift(s, 1, i - 1, t);
      }
    }
    if Occurs(t, s[1..]) {
      var i: nat :| StartsAt(s[1..], i, t);
      StartsAtShift(s, 1, i, t);
    }
  }
}
