/**
  Cleanup of the model's raw reply (app.py line 57). The reply is stripped of
  surrounding whitespace first; then every "```json" is deleted, then every
  "```". Deletions are leftmost and non-overlapping, as Python's
  `str.replace` performs them.
*/
module Cleanup {
  import opened Text

  /** The markdown code-fence markers deleted from the reply. */
  const Fence: string := "```"
  const JsonFence: string := "```json"

  /**
    The two `replace` calls, in source order. What is left holds no "```"
    and keeps the characters of `t` in their order.
  */
  function StripFences(t: string): (r: string)
    ensures !Contains(r, Fence)
    ensures IsSubsequence(r, t)
  {
    var u := ReplaceAll(t, JsonFence, "");
    FenceDeletionLeavesNone(u);
    DeletionIsSubsequence(t, JsonFence);
    DeletionIsSubsequence(u, Fence);
    SubsequenceTransitive(ReplaceAll(u, Fence, ""), u, t);
    ReplaceAll(u, Fence, "")
  }

  /**
    The cleaned reply. No "```" survives anywhere in it, and it is obtained
    from the raw reply by deleting characters only, so it is never longer.
  */
  function Clean(raw: string): (r: string)
    ensures !Contains(r, Fence)
    ensures IsSubsequence(r, raw)
    ensures |r| <= |raw|
  {
    var t := Trim(raw);
    TrimIsSubsequence(raw);
    SubsequenceTransitive(StripFences(t), t, raw);
    SubsequenceNoLonger(StripFences(t), raw);
    StripFences(t)
  }

  // ---------------------------------------------------------------------------
  // Deleting "```" never leaves a "```" behind
  // ---------------------------------------------------------------------------

  /** A reply that does not start with a backtick keeps its first character. */
  lemma DeletionKeepsPlainFront(v: string)
    requires |v| > 0 && v[0] != '`'
    ensures ReplaceAll(v, Fence, "") == [v[0]] + ReplaceAll(v[1..], Fence, "")
  {
    assert v[0..] == v;
    ReplaceAllStep(v, Fence, "");
  }

  /** Deletion cannot make a string start with two backticks if it did not already. */
  lemma DeletionAddsNoLeadingTicks(u: string)
    requires !IsPrefix("``", u)
    ensures !IsPrefix("``", ReplaceAll(u, Fence, ""))
  {
    var d := ReplaceAll(u, Fence, "");
    if |u| > 0 {
      if u[0] != '`' {
        DeletionKeepsPlainFront(u);
        assert d[0] == u[0];
      } else {
        if |u| >= 3 {
          assert u[..3][..2] == u[..2];
        }
        assert u[0..] == u;
        ReplaceAllStep(u, Fence, "");
        assert d == ['`'] + ReplaceAll(u[1..], Fence, "");
        if |u| > 1 {
          assert u[1] != '`';
          DeletionKeepsPlainFront(u[1..]);
          assert d[1] == u[1];
        } else {
          assert u[1..] == [];
          assert d == ['`'];
        }
      }
    }
  }

  /**
    Leftmost, non-overlapping deletion of "```" leaves no "```": a backtick
    kept just before a deleted fence would have started an earlier match.
  */
  lemma {:induction false} FenceDeletionLeavesNone(s: string)
    ensures !Contains(ReplaceAll(s, Fence, ""), Fence)
    decreases |s|
  {
    var d := ReplaceAll(s, Fence, "");
    if |s| == 0 {
      assert d == [];
    } else if IsPrefix(Fence, s) {
      FenceDeletionLeavesNone(s[|Fence|..]);
      assert d == ReplaceAll(s[|Fence|..], Fence, "");
    } else {
      var x := ReplaceAll(s[1..], Fence, "");
      FenceDeletionLeavesNone(s[1..]);
      assert s[0..] == s;
      ReplaceAllStep(s, Fence, "");
      assert d == [s[0]] + x;
      forall i | 0 <= i <= |d|
        ensures !OccursAt(d, Fence, i)
      {
        if i == 0 {
          assert d[0..] == d;
          if s[0] == '`' {
            if |s| >= 3 {
              assert s[..3] == [s[0]] + s[1..][..2];
            }
            DeletionAddsNoLeadingTicks(s[1..]);
            if |d| >= 3 {
              assert d[..3] == [s[0]] + x[..2];
            }
          } else {
            assert d[0] == s[0];
          }
        } else {
          assert d[i..] == x[i - 1..];
          assert !OccursAt(x, Fence, i - 1);
        }
      }
    }
  }

  /** "```json" starts with "```", so a string free of "```" is free of "```json". */
  lemma NoFenceNoJsonFence(s: string)
    requires !Contains(s, Fence)
    ensures !Contains(s, JsonFence)
  {
    forall i | 0 <= i <= |s|
      ensures !OccursAt(s, JsonFence, i)
    {
      assert !OccursAt(s, Fence, i);
      if |s[i..]| >= |JsonFence| {
        assert s[i..][..3] == s[i..][..7][..3];
      }
    }
  }

  /** Fence removal is idempotent: running both `replace` calls again changes nothing. */
  lemma StripFencesIdempotent(t: string)
    ensures StripFences(StripFences(t)) == StripFences(t)
  {
    var c := StripFences(t);
    FenceDeletionLeavesNone(ReplaceAll(t, JsonFence, ""));
    NoFenceNoJsonFence(c);
    ReplaceAllAbsent(c, JsonFence, "");
    ReplaceAllAbsent(c, Fence, "");
  }

  /** A cleaned reply goes through fence removal unchanged. */
  lemma CleanedReplyHasNothingToStrip(raw: string)
    ensures StripFences(Clean(raw)) == Clean(raw)
  {
    StripFencesIdempotent(Trim(raw));
  }

  // ---------------------------------------------------------------------------
  // What cleanup does to typical replies
  // ---------------------------------------------------------------------------

  predicate NoBacktick(s: string) {
    forall k :: 0 <= k < |s| ==> s[k] != '`'
  }

  /** A string without a backtick holds no "```". */
  lemma NoBacktickNoFence(s: string)
    requires NoBacktick(s)
    ensures !Contains(s, Fence)
  {
    forall i | 0 <= i <= |s|
      ensures !OccursAt(s, Fence, i)
    {
      if |s[i..]| >= |Fence| {
        assert s[i..][..3][0] == s[i];
      }
    }
  }

  /**
    Stripping happens before the fences go, so for a reply shaped
    "```json\n<x>\n```", where x holds no "```", the newlines inside the
    fences survive and the "json" tag leaves with its fence.
  */
  lemma FencedReplyKeepsInnerNewlines(w1: string, x: string, w2: string)
    requires AllWhitespace(w1) && AllWhitespace(w2)
    requires !Contains(x, Fence)
    ensures Clean(w1 + JsonFence + "\n" + x + "\n" + Fence + w2) == "\n" + x + "\n"
  {
    var inner := "\n" + x + "\n";
    var m := JsonFence + inner + Fence;
    assert w1 + JsonFence + "\n" + x + "\n" + Fence + w2 == w1 + m + w2;
    assert m[0] == '`' && m[|m| - 1] == '`';
    TrimOfPadded(w1, m, w2);
    NewlinesKeepFenceOut(x);
    StripFencesOfFenced(inner);
  }

  /** Framing a fence-free text by newlines creates no "```". */
  lemma NewlinesKeepFenceOut(x: string)
    requires !Contains(x, Fence)
    ensures !Contains("\n" + x + "\n", Fence)
  {
    var inner := "\n" + x + "\n";
    forall i | 0 <= i <= |inner|
      ensures !OccursAt(inner, Fence, i)
    {
      if |inner[i..]| >= |Fence| {
        var w := inner[i..][..3];
        if i == 0 {
          assert w[0] == '\n';
        } else if i + 3 == |inner| {
          assert w[2] == '\n';
        } else {
          assert !OccursAt(x, Fence, i - 1);
          assert w == x[i - 1..][..3];
        }
      }
    }
  }

  /**
    No "```" starts inside a fence-free text that does not end in a backtick,
    whatever follows it; hence no "```json" starts there either.
  */
  lemma NoFenceStartsInside(s: string, t: string)
    requires !Contains(s, Fence)
    requires |s| == 0 || s[|s| - 1] != '`'
    ensures forall i :: 0 <= i < |s| ==> !OccursAt(s + t, Fence, i)
    ensures forall i :: 0 <= i < |s| ==> !OccursAt(s + t, JsonFence, i)
  {
    forall i | 0 <= i < |s|
      ensures !OccursAt(s + t, Fence, i) && !OccursAt(s + t, JsonFence, i)
    {
      if |(s + t)[i..]| >= |Fence| {
        var w := (s + t)[i..][..3];
        if i + 3 <= |s| {
          assert !OccursAt(s, Fence, i);
          assert w == s[i..][..3];
        } else {
          assert w[|s| - 1 - i] == s[|s| - 1];
        }
        if |(s + t)[i..]| >= |JsonFence| {
          assert (s + t)[i..][..7][..3] == w;
        }
      }
    }
  }

  /**
    Fence removal on "```json" + inner + "```" gives back the inner text when
    it holds no "```" and does not end in a backtick.
  */
  lemma StripFencesOfFenced(inner: string)
    requires !Contains(inner, Fence)
    requires |inner| == 0 || inner[|inner| - 1] != '`'
    ensures StripFences(JsonFence + inner + Fence) == inner
  {
    var m := JsonFence + inner + Fence;
    assert m == [] + JsonFence + (inner + Fence);
    ReplaceAllFirstMatch([], inner + Fence, JsonFence, "");
    NoFenceStartsInside(inner, Fence);
    ReplaceAllCopiesUnmatched(inner, Fence, JsonFence, "");
    FenceHasNoJsonFence();
    assert ReplaceAll(m, JsonFence, "") == inner + Fence;
    assert inner + Fence == inner + Fence + [];
    ReplaceAllFirstMatch(inner, [], Fence, "");
  }

  lemma FenceHasNoJsonFence()
    ensures ReplaceAll(Fence, JsonFence, "") == Fence
  {
    assert !Contains(Fence, JsonFence);
    ReplaceAllAbsent(Fence, JsonFence, "");
  }

  /** A reply with no "```" and no surrounding whitespace comes through cleanup unchanged. */
  lemma PlainReplyUnchanged(x: string)
    requires !Contains(x, Fence)
    requires |x| == 0 || (!IsWhitespace(x[0]) && !IsWhitespace(x[|x| - 1]))
    ensures Clean(x) == x
  {
    assert x == [] + x + [];
    TrimOfPadded([], x, []);
    CleanIsTrimIffNoFence(x);
  }

  /**
    Cleanup drops only the surrounding whitespace exactly when the reply
    holds no "```": without one neither `replace` finds anything, and with
    one the fence lies inside the stripped text, so deleting it changes it.
  */
  lemma CleanIsTrimIffNoFence(raw: string)
    ensures Clean(raw) == Trim(raw) <==> !Contains(raw, Fence)
  {
    var t := Trim(raw);
    TrimKeepsFences(raw);
    if !Contains(raw, Fence) {
      NoFenceNoJsonFence(t);
      ReplaceAllAbsent(t, JsonFence, "");
      ReplaceAllAbsent(t, Fence, "");
    }
  }

  /** A "```" of the reply is never whitespace, so stripping keeps every one. */
  lemma TrimKeepsFences(raw: string)
    ensures Contains(Trim(raw), Fence) <==> Contains(raw, Fence)
  {
    var t := Trim(raw);
    var i := SkipLeading(raw, 0);
    if Contains(t, Fence) {
      var j :| 0 <= j <= |t| && OccursAt(t, Fence, j);
      assert t[j..][..3] == raw[i + j..][..3];
      assert OccursAt(raw, Fence, i + j);
    }
    if Contains(raw, Fence) {
      var j :| 0 <= j <= |raw| && OccursAt(raw, Fence, j);
      assert raw[j] == raw[j..][..3][0] && raw[j + 2] == raw[j..][..3][2];
      assert !IsWhitespace(raw[j]) && !IsWhitespace(raw[j + 2]);
      assert i <= j && j + 3 <= i + |t|;
      assert t[j - i..][..3] == raw[j..][..3];
      assert OccursAt(t, Fence, j - i);
    }
  }

  /** The raw reply "`````json`": two backticks, "```json", one more backtick. */
  const GluedReply: string := "``" + JsonFence + "`"

  /**
    The deletions do not stay inside the fences of the raw reply. In
    `GluedReply` the first `replace` glues the two backticks before the
    deleted "```json" to the one after it; the second `replace` deletes that
    new "```", so the final backtick goes although it belongs to no "```" or
    "```json" of the raw reply.
  */
  lemma GluedFenceIsDeleted()
    ensures Clean(GluedReply) == []
    ensures |GluedReply| == 10 && GluedReply[9] == '`'
    ensures forall i :: OccursAt(GluedReply, Fence, i) ==> i + |Fence| <= 9
    ensures forall i :: OccursAt(GluedReply, JsonFence, i) ==> i + |JsonFence| <= 9
  {
    var raw := GluedReply;
    assert raw == [] + raw + [];
    TrimOfPadded([], raw, []);
    JsonFenceDeletionGlues();
    BareFenceDeletedBefore([]);
    assert Fence + [] == Fence;
    GluedBacktickInNoFence();
  }

  lemma JsonFenceDeletionGlues()
    ensures ReplaceAll(GluedReply, JsonFence, "") == Fence
  {
    forall i | 0 <= i < 2
      ensures !OccursAt("``" + JsonFence + "`", JsonFence, i)
    {
      assert GluedReply[i..][..7][3] == '`';
    }
    ReplaceAllFirstMatch("``", "`", JsonFence, "");
    assert !Contains("`", JsonFence);
    ReplaceAllAbsent("`", JsonFence, "");
  }

  lemma GluedBacktickInNoFence()
    ensures forall i :: OccursAt(GluedReply, Fence, i) ==> i + |Fence| <= 9
    ensures forall i :: OccursAt(GluedReply, JsonFence, i) ==> i + |JsonFence| <= 9
  {
    forall i | OccursAt(GluedReply, Fence, i)
      ensures i + |Fence| <= 9
    {
      assert GluedReply[i..][..3][0] == GluedReply[i];
    }
    forall i | OccursAt(GluedReply, JsonFence, i)
      ensures i + |JsonFence| <= 9
    {
      assert GluedReply[i..][..7][2] == GluedReply[i + 2];
    }
  }

  /**
    Whitespace between the fences is not stripped, because stripping comes
    first: "```json" + w + "```" with surrounding whitespace cleans to w.
  */
  lemma WhitespaceBetweenFencesSurvives(w1: string, w: string, w2: string)
    requires AllWhitespace(w1) && AllWhitespace(w) && AllWhitespace(w2)
    ensures Clean(w1 + JsonFence + w + Fence + w2) == w
  {
    var m := JsonFence + w + Fence;
    assert w1 + JsonFence + w + Fence + w2 == w1 + m + w2;
    assert m[0] == '`' && m[|m| - 1] == '`';
    TrimOfPadded(w1, m, w2);
    forall k | 0 <= k < |w|
      ensures w[k] != '`'
    {
      assert IsWhitespace(w[k]);
    }
    NoBacktickNoFence(w);
    StripFencesOfFenced(w);
  }

  /**
    Fence removal is blind substring deletion: a "```" inside legitimate
    content is deleted as well.
  */
  lemma InnerFenceIsDeleted(x: string, y: string)
    requires NoBacktick(x) && NoBacktick(y)
    requires |y| == 0 || y[0] != 'j'
    ensures StripFences(x + Fence + y) == x + y
  {
    var fy := Fence + y;
    assert x + Fence + y == x + fy;
    ReplaceAllCopiesForeign(x, fy, JsonFence, "");
    BareFenceBeforePlain(y);
    ReplaceAllAbsent(fy, JsonFence, "");
    assert ReplaceAll(x + fy, JsonFence, "") == x + fy;
    ReplaceAllCopiesForeign(x, fy, Fence, "");
    BareFenceDeletedBefore(y);
  }

  /** A bare fence followed by text with no backtick and no leading 'j' holds no "```json". */
  lemma BareFenceBeforePlain(y: string)
    requires NoBacktick(y)
    requires |y| == 0 || y[0] != 'j'
    ensures !Contains(Fence + y, JsonFence)
  {
    var fy := Fence + y;
    forall i | 0 <= i <= |fy|
      ensures !OccursAt(fy, JsonFence, i)
    {
      if |fy[i..]| >= |JsonFence| {
        var w := fy[i..][..7];
        if i < 3 {
          assert w[3 - i] == y[0];
        } else {
          assert w[0] == y[i - 3];
        }
      }
    }
  }

  lemma BareFenceDeletedBefore(y: string)
    requires NoBacktick(y)
    ensures ReplaceAll(Fence + y, Fence, "") == y
  {
    assert Fence + y == [] + Fence + y;
    ReplaceAllFirstMatch([], y, Fence, "");
    assert y == y + [];
    ReplaceAllCopiesForeign(y, [], Fence, "");
  }

  // ---------------------------------------------------------------------------
  // Replies made of fences only
  // ---------------------------------------------------------------------------

  /** One fence marker as the model may emit it: "```" or "```json". */
  datatype FenceMark = Bare | Tagged

  function Spell(ms: seq<FenceMark>): string
    decreases |ms|
  {
    if |ms| == 0 then [] else (if ms[0].Bare? then Fence else JsonFence) + Spell(ms[1..])
  }

  function BareCount(ms: seq<FenceMark>): nat
    decreases |ms|
  {
    if |ms| == 0 then 0 else (if ms[0].Bare? then 1 else 0) + BareCount(ms[1..])
  }

  /** `n` bare fences in a row. */
  function Fences(n: nat): string {
    if n == 0 then [] else Fence + Fences(n - 1)
  }

  /** A non-empty run of markers starts with "```" and ends in '`' or 'n'. */
  lemma {:induction false} SpellShape(ms: seq<FenceMark>)
    requires |ms| > 0
    ensures var s := Spell(ms);
      |s| >= 3 && s[..3] == Fence && (s[|s| - 1] == '`' || s[|s| - 1] == 'n')
    decreases |ms|
  {
    var head := if ms[0].Bare? then Fence else JsonFence;
    var s := Spell(ms);
    assert s == head + Spell(ms[1..]);
    assert s[..3] == head[..3];
    if |ms| > 1 {
      SpellShape(ms[1..]);
      assert s[|s| - 1] == Spell(ms[1..])[|Spell(ms[1..])| - 1];
    } else {
      assert s == head;
    }
  }

  /** Deleting "```json" from a run of markers leaves exactly the bare fences. */
  lemma {:induction false} TaggedDeletionLeavesBare(ms: seq<FenceMark>)
    ensures ReplaceAll(Spell(ms), JsonFence, "") == Fences(BareCount(ms))
    decreases |ms|
  {
    if |ms| > 0 {
      var u := Spell(ms[1..]);
      TaggedDeletionLeavesBare(ms[1..]);
      if ms[0].Tagged? {
        assert Spell(ms) == [] + JsonFence + u;
        ReplaceAllFirstMatch([], u, JsonFence, "");
      } else {
        var s := Fence + u;
        assert Spell(ms) == s;
        if |u| > 0 {
          SpellShape(ms[1..]);
        }
        forall i | 0 <= i < |Fence|
          ensures !OccursAt(s, JsonFence, i)
        {
          if |s[i..]| >= |JsonFence| {
            assert s[i..][..7][3] == u[i];
          }
        }
        ReplaceAllCopiesUnmatched(Fence, u, JsonFence, "");
      }
    }
  }

  lemma {:induction false} BareDeletionLeavesNothing(n: nat)
    ensures ReplaceAll(Fences(n), Fence, "") == []
  {
    if n > 0 {
      BareDeletionLeavesNothing(n - 1);
      assert Fences(n) == [] + Fence + Fences(n - 1);
      ReplaceAllFirstMatch([], Fences(n - 1), Fence, "");
    }
  }

  /**
    A reply made only of fence markers, with whitespace at most around them,
    cleans to the empty string.
  */
  lemma FenceOnlyReplyCleansToEmpty(w1: string, ms: seq<FenceMark>, w2: string)
    requires AllWhitespace(w1) && AllWhitespace(w2)
    ensures Clean(w1 + Spell(ms) + w2) == []
  {
    var m := Spell(ms);
    if |ms| > 0 {
      SpellShape(ms);
    }
    TrimOfPadded(w1, m, w2);
    TaggedDeletionLeavesBare(ms);
    BareDeletionLeavesNothing(BareCount(ms));
  }
}
