/**
  The Python string operations the cleanup relies on, over `seq<char>`:
  `str.strip()` with no argument, `str.replace(old, new)` (every leftmost,
  non-overlapping occurrence), substring search, and the subsequence order
  used to say that cleanup only ever deletes characters.
*/
module Text {

  /** The characters Python's `str.isspace` accepts; `str.strip()` removes exactly these. */
  predicate IsWhitespace(c: char) {
    || '\t' <= c <= '\r'
    || '\U{1C}' <= c <= '\U{1F}'
    || c == ' ' || c == '\U{85}' || c == '\U{A0}' || c == '\U{1680}'
    || '\U{2000}' <= c <= '\U{200A}'
    || c == '\U{2028}' || c == '\U{2029}' || c == '\U{202F}' || c == '\U{205F}' || c == '\U{3000}'
  }

  predicate AllWhitespace(s: string) {
    forall k :: 0 <= k < |s| ==> IsWhitespace(s[k])
  }

  predicate IsPrefix(p: string, s: string) {
    |p| <= |s| && s[..|p|] == p
  }

  /** `p` occurs in `s` starting at index `i`. */
  predicate OccursAt(s: string, p: string, i: int) {
    0 <= i <= |s| && IsPrefix(p, s[i..])
  }

  /** Python's `p in s` for strings. */
  predicate Contains(s: string, p: string) {
    exists i | 0 <= i <= |s| :: OccursAt(s, p, i)
  }

  lemma InfixContained(a: string, m: string, b: string)
    ensures OccursAt(a + m + b, m, |a|)
    ensures Contains(a + m + b, m)
  {
    assert (a + m + b)[|a|..][..|m|] == m;
    assert OccursAt(a + m + b, m, |a|);
  }

  // ---------------------------------------------------------------------------
  // str.strip()
  // ---------------------------------------------------------------------------

  /** Scans right from `i` past whitespace, stopping at the first other character or the end. */
  function SkipLeading(s: string, i: nat): (j: nat)
    requires i <= |s|
    ensures i <= j <= |s|
    ensures forall k :: i <= k < j ==> IsWhitespace(s[k])
    ensures j < |s| ==> !IsWhitespace(s[j])
    decreases |s| - i
  {
    if i < |s| && IsWhitespace(s[i]) then SkipLeading(s, i + 1) else i
  }

  /** Scans left from `j` past whitespace, never below `lo`. */
  function SkipTrailing(s: string, lo: nat, j: nat): (e: nat)
    requires lo <= j <= |s|
    ensures lo <= e <= j
    ensures forall k :: e <= k < j ==> IsWhitespace(s[k])
    ensures e > lo ==> !IsWhitespace(s[e - 1])
    decreases j
  {
    if j > lo && IsWhitespace(s[j - 1]) then SkipTrailing(s, lo, j - 1) else j
  }

  /**
    Python's `s.strip()`: the contiguous middle of `s` left once every leading
    and trailing whitespace character is gone. It is empty exactly when `s` is
    all whitespace, and otherwise neither starts nor ends with whitespace.
  */
  function Trim(s: string): (r: string)
    ensures |r| <= |s|
    ensures |r| > 0 ==> !IsWhitespace(r[0]) && !IsWhitespace(r[|r| - 1])
    ensures var i := SkipLeading(s, 0);
      && i + |r| <= |s|
      && r == s[i..i + |r|]
      && (forall k :: 0 <= k < i ==> IsWhitespace(s[k]))
      && (forall k :: i + |r| <= k < |s| ==> IsWhitespace(s[k]))
    ensures |r| == 0 <==> AllWhitespace(s)
  {
    var i := SkipLeading(s, 0);
    var e := SkipTrailing(s, i, |s|);
    assert e == i ==> AllWhitespace(s);
    s[i..e]
  }

  /**
    Reference characterisation of `strip`: padding a string that is empty, or
    neither starts nor ends with whitespace, by whitespace on both sides and
    stripping gives the string back.
  */
  lemma TrimOfPadded(a: string, m: string, b: string)
    requires AllWhitespace(a) && AllWhitespace(b)
    requires |m| == 0 || (!IsWhitespace(m[0]) && !IsWhitespace(m[|m| - 1]))
    ensures Trim(a + m + b) == m
  {
    var s := a + m + b;
    var i := SkipLeading(s, 0);
    var e := SkipTrailing(s, i, |s|);
    if |m| == 0 {
      forall k | 0 <= k < |s| ensures IsWhitespace(s[k]) {
        if k < |a| { assert s[k] == a[k]; } else { assert s[k] == b[k - |a|]; }
      }
    } else {
      assert s[|a|] == m[0];
      assert forall k :: 0 <= k < |a| ==> s[k] == a[k];
      assert i == |a|;
      assert s[|a| + |m| - 1] == m[|m| - 1];
      assert forall k :: |a| + |m| <= k < |s| ==> s[k] == b[k - |a| - |m|];
      assert e == |a| + |m|;
      assert s[i..e] == m;
    }
  }

  // ---------------------------------------------------------------------------
  // str.replace(pat, rep)
  // ---------------------------------------------------------------------------

  /**
    Python's `s.replace(pat, rep)`: scanning left to right, each occurrence of
    `pat` that starts at the scan position is replaced and the scan resumes
    after it, so matches are leftmost and never overlap. An empty `pat`
    matches before every character and at the end.
  */
  function ReplaceAll(s: string, pat: string, rep: string): (r: string)
    ensures |pat| > 0 && |rep| <= |pat| ==> |r| <= |s|
    decreases |s|
  {
    if |pat| == 0 then
      if |s| == 0 then rep else rep + [s[0]] + ReplaceAll(s[1..], pat, rep)
    else if |s| == 0 then []
    else if IsPrefix(pat, s) then rep + ReplaceAll(s[|pat|..], pat, rep)
    else [s[0]] + ReplaceAll(s[1..], pat, rep)
  }

  /** One step of the scan when no occurrence starts at the front. */
  lemma ReplaceAllStep(s: string, pat: string, rep: string)
    requires |pat| > 0 && |s| > 0 && !OccursAt(s, pat, 0)
    ensures ReplaceAll(s, pat, rep) == [s[0]] + ReplaceAll(s[1..], pat, rep)
  {
    assert s[0..] == s;
  }

  lemma UnmatchedShift(a: string, b: string, pat: string)
    requires |a| > 0
    requires forall i :: 0 <= i < |a| ==> !OccursAt(a + b, pat, i)
    ensures forall i :: 0 <= i < |a| - 1 ==> !OccursAt(a[1..] + b, pat, i)
  {
    forall i | 0 <= i < |a| - 1
      ensures !OccursAt(a[1..] + b, pat, i)
    {
      assert !OccursAt(a + b, pat, i + 1);
      assert (a[1..] + b)[i..] == (a + b)[i + 1..];
    }
  }

  lemma Glue(a: string, x: string, y: string, z: string)
    requires |a| > 0 && x == [a[0]] + y && y == a[1..] + z
    ensures x == a + z
  {
    assert a == [a[0]] + a[1..];
  }

  /** A stretch in which no occurrence of `pat` starts is copied unchanged. */
  lemma {:induction false} ReplaceAllCopiesUnmatched(a: string, b: string, pat: string, rep: string)
    requires |pat| > 0
    requires forall i :: 0 <= i < |a| ==> !OccursAt(a + b, pat, i)
    ensures ReplaceAll(a + b, pat, rep) == a + ReplaceAll(b, pat, rep)
    decreases |a|
  {
    if |a| == 0 {
      assert a + b == b;
    } else {
      var s, tail := a + b, a[1..] + b;
      assert s[1..] == tail && s[0] == a[0];
      ReplaceAllStep(s, pat, rep);
      UnmatchedShift(a, b, pat);
      ReplaceAllCopiesUnmatched(a[1..], b, pat, rep);
      Glue(a, ReplaceAll(s, pat, rep), ReplaceAll(tail, pat, rep), ReplaceAll(b, pat, rep));
    }
  }

  /** Corollary: a stretch without the first character of `pat` is copied unchanged. */
  lemma ReplaceAllCopiesForeign(a: string, b: string, pat: string, rep: string)
    requires |pat| > 0
    requires forall k :: 0 <= k < |a| ==> a[k] != pat[0]
    ensures ReplaceAll(a + b, pat, rep) == a + ReplaceAll(b, pat, rep)
  {
    forall i | 0 <= i < |a|
      ensures !OccursAt(a + b, pat, i)
    {
      assert (a + b)[i..][0] == a[i];
    }
    ReplaceAllCopiesUnmatched(a, b, pat, rep);
  }

  /**
    Leftmost, non-overlapping matching: when the first occurrence of `pat`
    starts right after `a`, the text before it is kept, that occurrence is
    replaced, and scanning resumes after it.
  */
  lemma ReplaceAllFirstMatch(a: string, b: string, pat: string, rep: string)
    requires |pat| > 0
    requires forall i :: 0 <= i < |a| ==> !OccursAt(a + pat + b, pat, i)
    ensures ReplaceAll(a + pat + b, pat, rep) == a + rep + ReplaceAll(b, pat, rep)
  {
    assert a + pat + b == a + (pat + b);
    ReplaceAllCopiesUnmatched(a, pat + b, pat, rep);
    assert IsPrefix(pat, pat + b);
    assert (pat + b)[|pat|..] == b;
  }

  /** With no occurrence of `pat`, replacing changes nothing. */
  lemma ReplaceAllAbsent(s: string, pat: string, rep: string)
    requires |pat| > 0
    requires !Contains(s, pat)
    ensures ReplaceAll(s, pat, rep) == s
  {
    assert s + [] == s;
    ReplaceAllCopiesUnmatched(s, [], pat, rep);
  }

  // ---------------------------------------------------------------------------
  // Subsequences
  // ---------------------------------------------------------------------------

  /** `a` is obtained from `b` by deleting characters, the rest keeping their order. */
  predicate IsSubsequence(a: string, b: string)
    decreases |b|
  {
    || |a| == 0
    || (&& |b| > 0
        && ((a[0] == b[0] && IsSubsequence(a[1..], b[1..])) || IsSubsequence(a, b[1..])))
  }

  lemma {:induction false} SubsequenceNoLonger(a: string, b: string)
    requires IsSubsequence(a, b)
    ensures |a| <= |b|
    decreases |b|
  {
    if |a| > 0 {
      if a[0] == b[0] && IsSubsequence(a[1..], b[1..]) {
        SubsequenceNoLonger(a[1..], b[1..]);
      } else {
        SubsequenceNoLonger(a, b[1..]);
      }
    }
  }

  lemma {:induction false} SubsequenceTransitive(a: string, b: string, c: string)
    requires IsSubsequence(a, b) && IsSubsequence(b, c)
    ensures IsSubsequence(a, c)
    decreases |c|
  {
    if |a| > 0 {
      SubsequenceNoLonger(a, b);
      if IsSubsequence(b, c[1..]) {
        SubsequenceTransitive(a, b, c[1..]);
      } else {
        assert b[0] == c[0] && IsSubsequence(b[1..], c[1..]);
        if a[0] == b[0] && IsSubsequence(a[1..], b[1..]) {
          SubsequenceTransitive(a[1..], b[1..], c[1..]);
        } else {
          SubsequenceTransitive(a, b[1..], c[1..]);
        }
      }
    }
  }

  /** Any contiguous piece of a string is a subsequence of it. */
  lemma {:induction false} InfixIsSubsequence(a: string, m: string, b: string)
    ensures IsSubsequence(m, a + m + b)
    decreases |a| + |m|
  {
    if |a| > 0 {
      assert (a + m + b)[1..] == a[1..] + m + b;
      InfixIsSubsequence(a[1..], m, b);
    } else if |m| > 0 {
      assert a + m + b == m + b;
      assert (m + b)[1..] == [] + m[1..] + b;
      InfixIsSubsequence([], m[1..], b);
    }
  }

  lemma TrimIsSubsequence(s: string)
    ensures IsSubsequence(Trim(s), s)
  {
    var r := Trim(s);
    var k := SkipLeading(s, 0);
    assert s == s[..k] + r + s[k + |r|..];
    InfixIsSubsequence(s[..k], r, s[k + |r|..]);
  }

  /** Deleting every occurrence of a non-empty pattern leaves a subsequence. */
  lemma {:induction false} DeletionIsSubsequence(s: string, pat: string)
    requires |pat| > 0
    ensures IsSubsequence(ReplaceAll(s, pat, []), s)
    decreases |s|
  {
    var r := ReplaceAll(s, pat, []);
    if |s| == 0 {
    } else if IsPrefix(pat, s) {
      var rest := s[|pat|..];
      DeletionIsSubsequence(rest, pat);
      assert r == ReplaceAll(rest, pat, []);
      assert s == s[..|pat|] + rest + [];
      InfixIsSubsequence(s[..|pat|], rest, []);
      SubsequenceTransitive(r, rest, s);
    } else {
      DeletionIsSubsequence(s[1..], pat);
      assert r == [s[0]] + ReplaceAll(s[1..], pat, []);
      assert r[1..] == ReplaceAll(s[1..], pat, []);
    }
  }
}
