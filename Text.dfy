/**
  The Python string operations testlib.py relies on: `str.startswith`,
  `str.endswith`, the substring test `pat in s`, and `str.replace`, which
  replaces every non-overlapping occurrence, scanning left to right.
 */
module Text {

  /** `s.startswith(p)` */
  predicate StartsWith(s: string, p: string) {
    |p| <= |s| && s[..|p|] == p
  }

  /** `s.endswith(p)` */
  predicate EndsWith(s: string, p: string) {
    |p| <= |s| && s[|s| - |p|..] == p
  }

  /** `s.startswith(p)` holds exactly when `s` is `p` followed by something. */
  lemma StartsWithIff(s: string, p: string)
    ensures StartsWith(s, p) <==> exists t :: s == p + t
  {
    if StartsWith(s, p) {
      assert s == p + s[|p|..];
    }
    if t :| s == p + t {
      assert s[..|p|] == p;
    }
  }

  /** `s.endswith(p)` holds exactly when `s` is something followed by `p`. */
  lemma EndsWithIff(s: string, p: string)
    ensures EndsWith(s, p) <==> exists t :: s == t + p
  {
    if EndsWith(s, p) {
      assert s == s[..|s| - |p|] + p;
    }
    if t :| s == t + p {
      assert s[|s| - |p|..] == p;
    }
  }

  /** `pat` occurs in `s` starting at index `i`. */
  predicate OccursAt(s: string, pat: string, i: int) {
    0 <= i && i + |pat| <= |s| && s[i..i + |pat|] == pat
  }

  /** `pat in s`: some window of `s` equals `pat` (always true for an empty `pat`). */
  predicate Contains(s: string, pat: string)
    decreases |s|
  {
    |pat| <= |s| && (StartsWith(s, pat) || Contains(s[1..], pat))
  }

  /** An occurrence at any index is found by the recursive test. */
  lemma {:induction false} ContainsAt(s: string, pat: string, i: int)
    requires OccursAt(s, pat, i)
    ensures Contains(s, pat)
    decreases i
  {
    if i > 0 {
      assert s[1..][i - 1..i - 1 + |pat|] == s[i..i + |pat|];
      ContainsAt(s[1..], pat, i - 1);
    } else {
      assert StartsWith(s, pat);
    }
  }

  /** When the recursive test succeeds, it returns an index of an occurrence. */
  lemma {:induction false} ContainsWitness(s: string, pat: string) returns (i: int)
    requires Contains(s, pat)
    ensures OccursAt(s, pat, i)
    decreases |s|
  {
    if StartsWith(s, pat) {
      i := 0;
    } else {
      var j := ContainsWitness(s[1..], pat);
      assert s[1..][j..j + |pat|] == s[j + 1..j + 1 + |pat|];
      i := j + 1;
    }
  }

  /** The recursive substring test agrees with "there is an index where `pat` occurs". */
  lemma ContainsIff(s: string, pat: string)
    ensures Contains(s, pat) <==> exists i :: OccursAt(s, pat, i)
  {
    if Contains(s, pat) {
      var i := ContainsWitness(s, pat);
    }
    if i :| OccursAt(s, pat, i) {
      ContainsAt(s, pat, i);
    }
  }

  /**
    `s.replace(pat, rep)` for a non-empty `pat`: each occurrence found while
    scanning from the left is replaced, and scanning resumes after it.
   */
  function ReplaceAll(s: string, pat: string, rep: string): (r: string)
    requires pat != []
    ensures !Contains(s, pat) ==> r == s
    ensures rep == pat ==> r == s
    decreases |s|
  {
    if |s| < |pat| then s
    else if s[..|pat|] == pat then rep + ReplaceAll(s[|pat|..], pat, rep)
    else [s[0]] + ReplaceAll(s[1..], pat, rep)
  }

  /**
    A prefix that holds no copy of the pattern's first character cannot
    start an occurrence, so it passes through unchanged.
   */
  lemma {:induction false} ReplaceAllSkipsPrefix(a: string, b: string, pat: string, rep: string)
    requires pat != [] && pat[0] !in a
    ensures ReplaceAll(a + b, pat, rep) == a + ReplaceAll(b, pat, rep)
    decreases |a|
  {
    if a != [] {
      var rest := a[1..] + b;
      assert a + b == [a[0]] + rest;
      ReplaceAllSkipsPrefix(a[1..], b, pat, rep);
      if |rest| + 1 >= |pat| {
        assert ([a[0]] + rest)[..|pat|][0] == a[0];
        ReplaceAllPassesFirst(a[0], rest, pat, rep);
      }
      assert [a[0]] + (a[1..] + ReplaceAll(b, pat, rep)) == a + ReplaceAll(b, pat, rep);
    } else {
      assert a + b == b;
    }
  }

  /** An occurrence at the very front is replaced, and the scan resumes after it. */
  lemma ReplaceAllAtFront(b: string, pat: string, rep: string)
    requires pat != []
    ensures ReplaceAll(pat + b, pat, rep) == rep + ReplaceAll(b, pat, rep)
  {
    assert (pat + b)[..|pat|] == pat;
    assert (pat + b)[|pat|..] == b;
  }

  /** A front that is not an occurrence is copied, and the scan moves on by one. */
  lemma ReplaceAllPassesFirst(c: char, rest: string, pat: string, rep: string)
    requires pat != [] && |rest| + 1 >= |pat| && ([c] + rest)[..|pat|] != pat
    ensures ReplaceAll([c] + rest, pat, rep) == [c] + ReplaceAll(rest, pat, rep)
  {
    assert ([c] + rest)[1..] == rest;
  }

  /** A concatenation starts with its first part, and the rest is its second. */
  lemma StartsWithConcat(a: string, b: string)
    ensures StartsWith(a + b, a) && (a + b)[|a|..] == b
  {
    assert (a + b)[..|a|] == a;
  }

  /** Splitting the first character off a concatenation. */
  lemma SplitFirst(a: string, y: string)
    requires a != []
    ensures a + y == [a[0]] + (a[1..] + y)
  {
    assert a == [a[0]] + a[1..];
  }

  /** Text that starts with `a` does not start with `b` when the two differ at a shared index. */
  lemma NotStartsWithAt(a: string, rest: string, b: string, i: nat)
    requires i < |a| && i < |b| && a[i] != b[i]
    ensures !StartsWith(a + rest, b)
  {
    if |b| <= |a + rest| {
      assert (a + rest)[..|b|][i] == a[i];
    }
  }

  /**
    A front `a` that is not an occurrence, and holds no other copy of the
    pattern's first character, passes through unchanged.
   */
  lemma ReplaceAllSkipsNonMatch(a: string, rest: string, pat: string, rep: string)
    requires pat != [] && a != [] && pat[0] !in a[1..] && !StartsWith(a + rest, pat)
    ensures ReplaceAll(a + rest, pat, rep) == a + ReplaceAll(rest, pat, rep)
  {
    SplitFirst(a, rest);
    if |a + rest| >= |pat| {
      ReplaceAllPassesFirst(a[0], a[1..] + rest, pat, rep);
      ReplaceAllSkipsPrefix(a[1..], rest, pat, rep);
      SplitFirst(a, ReplaceAll(rest, pat, rep));
    } else {
      assert ReplaceAll(rest, pat, rep) == rest;
    }
  }

  /** An absent pattern stays absent behind a prefix without its first character. */
  lemma {:induction false} NotContainsAfterClean(a: string, b: string, pat: string)
    requires pat != [] && pat[0] !in a && !Contains(b, pat)
    ensures !Contains(a + b, pat)
    decreases |a|
  {
    if a == [] {
      assert a + b == b;
    } else {
      assert (a + b)[1..] == a[1..] + b;
      NotContainsAfterClean(a[1..], b, pat);
      if |pat| <= |a + b| {
        assert (a + b)[..|pat|][0] == a[0];
      }
    }
  }

  /** A pattern present in `b` is present behind any prefix. */
  lemma ContainsAfterPrefix(a: string, b: string, pat: string)
    requires Contains(b, pat)
    ensures Contains(a + b, pat)
  {
    ContainsIff(b, pat);
    var i :| OccursAt(b, pat, i);
    assert (a + b)[|a| + i..|a| + i + |pat|] == b[i..i + |pat|];
    assert OccursAt(a + b, pat, |a| + i);
    ContainsIff(a + b, pat);
  }

  /**
    An absent pattern stays absent behind a front `a` that is not an
    occurrence and holds no other copy of the pattern's first character.
   */
  lemma NotContainsAfterNonMatch(a: string, rest: string, pat: string)
    requires pat != [] && a != [] && pat[0] !in a[1..]
    requires !StartsWith(a + rest, pat) && !Contains(rest, pat)
    ensures !Contains(a + rest, pat)
  {
    SplitFirst(a, rest);
    NotContainsAfterClean(a[1..], rest, pat);
  }

  /** No occurrence begins inside a non-empty `a`, so none begins at its front either. */
  lemma NoOccurrenceAtFront(a: string, b: string, pat: string)
    requires pat != [] && a != []
    requires !Contains(a + pat[..|pat| - 1], pat)
    ensures (a + pat + b)[..|pat|] != pat
    ensures !Contains(a[1..] + pat[..|pat| - 1], pat)
  {
    var x := a + pat[..|pat| - 1];
    assert |x| >= |pat| && !StartsWith(x, pat);
    assert x[..|pat|] == (a + pat + b)[..|pat|];
    assert x[1..] == a[1..] + pat[..|pat| - 1];
  }

  /** The inductive step of ReplaceAllLeftmost: one non-matching character in front. */
  lemma LeftmostStep(a: string, b: string, pat: string, rep: string)
    requires pat != [] && a != []
    requires (a + pat + b)[..|pat|] != pat
    requires ReplaceAll(a[1..] + pat + b, pat, rep) == a[1..] + rep + ReplaceAll(b, pat, rep)
    ensures ReplaceAll(a + pat + b, pat, rep) == a + rep + ReplaceAll(b, pat, rep)
  {
    assert a + pat + b == [a[0]] + (a[1..] + pat + b) by {
      assert a == [a[0]] + a[1..];
    }
    ReplaceAllPassesFirst(a[0], a[1..] + pat + b, pat, rep);
    var tail := ReplaceAll(b, pat, rep);
    assert a + rep + tail == [a[0]] + (a[1..] + rep + tail) by {
      assert a == [a[0]] + a[1..];
    }
  }

  /**
    The left-to-right rule: when `pat` first occurs right after `a` (no
    occurrence begins inside `a`), that occurrence becomes `rep` and the rest
    is processed on its own. Together with the first ensures of ReplaceAll
    this determines the result on every input.
   */
  lemma {:induction false} ReplaceAllLeftmost(a: string, b: string, pat: string, rep: string)
    requires pat != []
    requires !Contains(a + pat[..|pat| - 1], pat)
    ensures ReplaceAll(a + pat + b, pat, rep) == a + rep + ReplaceAll(b, pat, rep)
    decreases |a|
  {
    if a == [] {
      assert a + pat + b == pat + b;
      ReplaceAllAtFront(b, pat, rep);
    } else {
      NoOccurrenceAtFront(a, b, pat);
      ReplaceAllLeftmost(a[1..], b, pat, rep);
      LeftmostStep(a, b, pat, rep);
    }
  }
}
