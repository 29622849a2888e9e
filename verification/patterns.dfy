/**
 * The two answer-text patterns of the normalisers, read with the regular
 * expression engine's semantics: matched from the start of the text but not
 * anchored at its end, `.` never crossing a newline, `+` greedy and `+?`
 * lazy.
 *
 *   TR: `TR-([A-Za-z0-9]+)_([A-Za-z0-9]+)-(.+)`
 *   QA: `QA-(.+?)-([A-Za-z0-9]+)_([A-Za-z0-9]+)-(.+)`
 *
 * Both end in the same tail `([A-Za-z0-9]+)_([A-Za-z0-9]+)-(.+)`. Because
 * `_` and `-` are not alphanumeric, the two id groups can only be the
 * longest alphanumeric runs, and the greedy last group runs to the first
 * newline or the end of the text, so the tail has at most one match.
 * The matchers work on positions inside the text.
 */
module Patterns {
  import opened Wrappers
  import opened Text

  /** Length of the longest alphanumeric run starting at position i. */
  function AlnumRun(s: string, i: nat): (n: nat)
    requires i <= |s|
    ensures i + n <= |s|
    decreases |s| - i
  {
    if i == |s| || !IsAlnum(s[i]) then 0 else 1 + AlnumRun(s, i + 1)
  }

  /** The run is alphanumeric and stops at the end of the text or at a character that is not. */
  lemma {:induction false} AlnumRunSpec(s: string, i: nat)
    requires i <= |s|
    ensures AlnumSpan(s, i, i + AlnumRun(s, i))
    ensures i + AlnumRun(s, i) < |s| ==> !IsAlnum(s[i + AlnumRun(s, i)])
    decreases |s| - i
  {
    if i < |s| && IsAlnum(s[i]) {
      AlnumRunSpec(s, i + 1);
    }
  }

  /** Positions lo up to hi of `s` are all alphanumeric. */
  predicate AlnumSpan(s: string, lo: nat, hi: nat) {
    hi <= |s| && forall k :: lo <= k < hi ==> IsAlnum(s[k])
  }

  /** Positions lo up to hi of `s` hold no newline. */
  predicate LineSpan(s: string, lo: nat, hi: nat) {
    hi <= |s| && forall k :: lo <= k < hi ==> s[k] != '\n'
  }

  /** Length of the longest newline-free run starting at position i: how far `.+` reaches. */
  function LineRun(s: string, i: nat): (n: nat)
    requires i <= |s|
    ensures i + n <= |s|
    decreases |s| - i
  {
    if i == |s| || s[i] == '\n' then 0 else 1 + LineRun(s, i + 1)
  }

  /** The run is newline-free and stops at the end of the text or at a newline. */
  lemma {:induction false} LineRunSpec(s: string, i: nat)
    requires i <= |s|
    ensures LineSpan(s, i, i + LineRun(s, i))
    ensures i + LineRun(s, i) < |s| ==> s[i + LineRun(s, i)] == '\n'
    decreases |s| - i
  {
    if i < |s| && s[i] != '\n' {
      LineRunSpec(s, i + 1);
    }
  }

  predicate AllAlnum(s: string) {
    |s| > 0 && forall k :: 0 <= k < |s| ==> IsAlnum(s[k])
  }

  predicate NoNewline(s: string) {
    forall k :: 0 <= k < |s| ==> s[k] != '\n'
  }

  predicate StartsWith(s: string, prefix: string) {
    |prefix| <= |s| && s[..|prefix|] == prefix
  }

  /** The three groups of the shared tail: scene id, video id and the rest of the line. */
  datatype IdTail = IdTail(sceneId: string, videoId: string, rest: string)

  /** The text the three groups span. */
  function IdTailText(t: IdTail): string {
    t.sceneId + "_" + t.videoId + "-" + t.rest
  }

  /**
   * The tail pattern's reading of `s`: the groups in order, each of the
   * shape its sub-pattern allows, followed by an unmatched remainder that is
   * empty or starts at a newline (where the greedy `.+` had to stop).
   */
  predicate IdTailSplits(s: string, t: IdTail, remainder: string) {
    AllAlnum(t.sceneId) && AllAlnum(t.videoId) && |t.rest| > 0 && NoNewline(t.rest)
    && (|remainder| == 0 || remainder[0] == '\n')
    && s == IdTailText(t) + remainder
  }

  /** `([A-Za-z0-9]+)_([A-Za-z0-9]+)-(.+)` matched at position i of `s`. */
  function MatchIdTail(s: string, i: nat): (r: Option<IdTail>)
    requires i <= |s|
    ensures AlnumRun(s, i) == 0 ==> r.None?
    ensures r.Some? ==> |r.value.sceneId| > 0 && |r.value.videoId| > 0 && |r.value.rest| > 0
    ensures r.Some? ==> i + |IdTailText(r.value)| <= |s|
  {
    var a := AlnumRun(s, i);
    if a == 0 || i + a == |s| || s[i + a] != '_' then None
    else
      var j := i + a + 1;
      var b := AlnumRun(s, j);
      if b == 0 || j + b == |s| || s[j + b] != '-' then None
      else
        var k := j + b + 1;
        var l := LineRun(s, k);
        if l == 0 then None
        else Some(IdTail(s[i..i + a], s[j..j + b], s[k..k + l]))
  }

  /**
   * A text cut at position i into groups of lengths a, b and l, with the
   * separators in between and a newline or the end after the last group,
   * is a reading of the tail pattern.
   */
  lemma Assemble(s: string, i: nat, a: nat, b: nat, l: nat, t: IdTail)
    requires i + a + b + 2 + l <= |s|
    requires a > 0 && b > 0 && l > 0
    requires s[i + a] == '_' && s[i + a + 1 + b] == '-'
    requires AlnumSpan(s, i, i + a) && AlnumSpan(s, i + a + 1, i + a + 1 + b)
    requires LineSpan(s, i + a + b + 2, i + a + b + 2 + l)
    requires i + a + b + 2 + l < |s| ==> s[i + a + b + 2 + l] == '\n'
    requires t == IdTail(s[i..i + a], s[i + a + 1..i + a + 1 + b], s[i + a + b + 2..i + a + b + 2 + l])
    ensures |IdTailText(t)| == a + b + 2 + l && TailReadAt(s, i, t)
  {
    var rem := s[i + a + b + 2 + l..];
    assert |IdTailText(t)| == a + b + 2 + l;
    forall k | 0 <= k < |s| - i
      ensures s[i..][k] == (IdTailText(t) + rem)[k]
    {
    }
    assert AllAlnum(t.sceneId) by {
      forall k | 0 <= k < a
        ensures IsAlnum(t.sceneId[k])
      {
        assert t.sceneId[k] == s[i + k];
      }
    }
    assert AllAlnum(t.videoId) by {
      forall k | 0 <= k < b
        ensures IsAlnum(t.videoId[k])
      {
        assert t.videoId[k] == s[i + a + 1 + k];
      }
    }
    assert NoNewline(t.rest) by {
      forall k | 0 <= k < l
        ensures t.rest[k] != '\n'
      {
        assert t.rest[k] == s[i + a + b + 2 + k];
      }
    }
  }

  /** `t` read from position i of `s` by the tail pattern, ending inside the text. */
  predicate TailReadAt(s: string, i: nat, t: IdTail) {
    i + |IdTailText(t)| <= |s| && IdTailSplits(s[i..], t, s[i + |IdTailText(t)|..])
  }

  /** Whatever the matcher returns is a reading of the text from position i by the tail pattern. */
  lemma MatchIdTailSound(s: string, i: nat)
    requires i <= |s|
    ensures MatchIdTail(s, i).Some? ==> TailReadAt(s, i, MatchIdTail(s, i).value)
  {
    if MatchIdTail(s, i).Some? {
      var a := AlnumRun(s, i);
      var b := AlnumRun(s, i + a + 1);
      var l := LineRun(s, i + a + b + 2);
      MatchIdTailShape(s, i, a, b, l);
      RunsAssemble(s, i, a, b, l, MatchIdTail(s, i).value);
    }
  }

  /** Where a tail match's groups and separators sit, in terms of the three runs. */
  lemma MatchIdTailShape(s: string, i: nat, a: nat, b: nat, l: nat)
    requires i <= |s| && MatchIdTail(s, i).Some?
    requires a == AlnumRun(s, i)
    requires i + a + 1 <= |s| ==> b == AlnumRun(s, i + a + 1)
    requires i + a + b + 2 <= |s| ==> l == LineRun(s, i + a + b + 2)
    ensures a > 0 && i + a < |s| && s[i + a] == '_'
    ensures b > 0 && i + a + 1 + b < |s| && s[i + a + 1 + b] == '-'
    ensures l > 0 && i + a + b + 2 + l <= |s|
    ensures MatchIdTail(s, i).value
         == IdTail(s[i..i + a], s[i + a + 1..i + a + 1 + b], s[i + a + b + 2..i + a + b + 2 + l])
  {
  }

  /** The three maximal runs with their separators in between are a reading of the tail pattern. */
  lemma RunsAssemble(s: string, i: nat, a: nat, b: nat, l: nat, t: IdTail)
    requires i <= |s|
    requires a == AlnumRun(s, i) && a > 0 && i + a < |s| && s[i + a] == '_'
    requires b == AlnumRun(s, i + a + 1) && b > 0 && i + a + 1 + b < |s| && s[i + a + 1 + b] == '-'
    requires l == LineRun(s, i + a + b + 2) && l > 0
    requires t == IdTail(s[i..i + a], s[i + a + 1..i + a + 1 + b], s[i + a + b + 2..i + a + b + 2 + l])
    ensures TailReadAt(s, i, t)
  {
    AlnumRunSpec(s, i);
    AlnumRunSpec(s, i + a + 1);
    LineRunSpec(s, i + a + b + 2);
    Assemble(s, i, a, b, l, t);
  }

  /** The longest alphanumeric run is fixed by where the alphanumerics stop. */
  lemma {:induction false} AlnumRunAt(s: string, i: nat, n: nat)
    requires i + n <= |s|
    requires forall k :: i <= k < i + n ==> IsAlnum(s[k])
    requires i + n < |s| ==> !IsAlnum(s[i + n])
    ensures AlnumRun(s, i) == n
    decreases n
  {
    if n > 0 {
      AlnumRunAt(s, i + 1, n - 1);
    }
  }

  /** The longest newline-free run is fixed by where the first newline is. */
  lemma {:induction false} LineRunAt(s: string, i: nat, n: nat)
    requires i + n <= |s|
    requires forall k :: i <= k < i + n ==> s[k] != '\n'
    requires i + n < |s| ==> s[i + n] == '\n'
    ensures LineRun(s, i) == n
    decreases n
  {
    if n > 0 {
      LineRunAt(s, i + 1, n - 1);
    }
  }

  /** A text whose runs from position i have lengths a, b and l, with the separators between, is matched with those groups. */
  lemma MatchIdTailAt(s: string, i: nat, a: nat, b: nat, l: nat)
    requires i + a + b + 2 + l <= |s|
    requires a > 0 && b > 0 && l > 0
    requires s[i + a] == '_' && s[i + a + 1 + b] == '-'
    requires AlnumSpan(s, i, i + a) && AlnumSpan(s, i + a + 1, i + a + 1 + b)
    requires LineSpan(s, i + a + b + 2, i + a + b + 2 + l)
    requires i + a + b + 2 + l < |s| ==> s[i + a + b + 2 + l] == '\n'
    ensures MatchIdTail(s, i)
         == Some(IdTail(s[i..i + a], s[i + a + 1..i + a + 1 + b], s[i + a + b + 2..i + a + b + 2 + l]))
  {
    AlnumRunAt(s, i, a);
    AlnumRunAt(s, i + a + 1, b);
    LineRunAt(s, i + a + b + 2, l);
  }

  /** Where the groups of a reading sit inside the text. */
  lemma TailPositions(s: string, t: IdTail, remainder: string)
    requires IdTailSplits(s, t, remainder)
    ensures |s| == |t.sceneId| + |t.videoId| + |t.rest| + 2 + |remainder|
    ensures s[..|t.sceneId|] == t.sceneId
    ensures s[|t.sceneId|] == '_'
    ensures s[|t.sceneId| + 1..|t.sceneId| + 1 + |t.videoId|] == t.videoId
    ensures s[|t.sceneId| + 1 + |t.videoId|] == '-'
    ensures s[|t.sceneId| + |t.videoId| + 2..|t.sceneId| + |t.videoId| + 2 + |t.rest|] == t.rest
    ensures s[|t.sceneId| + |t.videoId| + 2 + |t.rest|..] == remainder
  {
    var a, b, l := |t.sceneId|, |t.videoId|, |t.rest|;
    var x := IdTailText(t);
    assert s[..|x|] == x && s[|x|..] == remainder;
    var y := t.sceneId + "_" + t.videoId + "-";
    assert x == y + t.rest;
    assert s[a + b + 2..a + b + 2 + l] == x[a + b + 2..] == t.rest;
    var z := t.sceneId + "_" + t.videoId;
    assert y == z + "-";
    assert s[..a + 1 + b] == z;
    assert s[a + 1..a + 1 + b] == z[a + 1..] == t.videoId;
    assert s[..a] == z[..a] == t.sceneId;
  }

  /** Whenever the tail pattern can read the text from position i, the matcher finds exactly that reading. */
  lemma MatchIdTailComplete(s: string, i: nat, t: IdTail, remainder: string)
    requires i <= |s|
    requires IdTailSplits(s[i..], t, remainder)
    ensures MatchIdTail(s, i) == Some(t)
  {
    var a, b, l := |t.sceneId|, |t.videoId|, |t.rest|;
    var u := s[i..];
    TailPositions(u, t, remainder);
    forall k | i <= k < i + a
      ensures IsAlnum(s[k])
    {
      assert s[k] == u[..a][k - i];
    }
    assert s[i + a] == u[a];
    forall k | i + a + 1 <= k < i + a + 1 + b
      ensures IsAlnum(s[k])
    {
      assert s[k] == u[a + 1..a + 1 + b][k - i - a - 1];
    }
    assert s[i + a + 1 + b] == u[a + 1 + b];
    forall k | i + a + b + 2 <= k < i + a + b + 2 + l
      ensures s[k] != '\n'
    {
      assert s[k] == u[a + b + 2..a + b + 2 + l][k - i - a - b - 2];
    }
    if i + a + b + 2 + l < |s| {
      assert s[i + a + b + 2 + l] == u[a + b + 2 + l..][0] == remainder[0];
    }
    assert s[i..i + a] == u[..a];
    assert s[i + a + 1..i + a + 1 + b] == u[a + 1..a + 1 + b];
    assert s[i + a + b + 2..i + a + b + 2 + l] == u[a + b + 2..a + b + 2 + l];
    assert IdTail(s[i..i + a], s[i + a + 1..i + a + 1 + b], s[i + a + b + 2..i + a + b + 2 + l]) == t;
    MatchIdTailAt(s, i, a, b, l);
  }

  /** TR: `TR-` followed by the tail. */
  function MatchTr(text: string): (r: Option<IdTail>)
    ensures r.Some? <==> StartsWith(text, "TR-") && MatchIdTail(text, 3).Some?
    ensures r.Some? ==> r == MatchIdTail(text, 3)
  {
    if StartsWith(text, "TR-") then MatchIdTail(text, 3) else None
  }

  /** A matched TR text is `TR-` and a reading of the tail pattern. */
  lemma MatchTrSound(text: string)
    requires MatchTr(text).Some?
    ensures 3 + |IdTailText(MatchTr(text).value)| <= |text|
    ensures IdTailSplits(text[3..], MatchTr(text).value, text[3 + |IdTailText(MatchTr(text).value)|..])
  {
    MatchIdTailSound(text, 3);
  }

  /** A TR text written from its groups is read back as those groups. */
  lemma MatchTrWritten(t: IdTail)
    requires AllAlnum(t.sceneId) && AllAlnum(t.videoId) && |t.rest| > 0 && NoNewline(t.rest)
    ensures MatchTr("TR-" + IdTailText(t)) == Some(t)
  {
    var text := "TR-" + IdTailText(t);
    assert text[..3] == "TR-";
    assert text[3..] == IdTailText(t) + "";
    MatchIdTailComplete(text, 3, t, "");
  }

  /** The QA answer group and the tail that follows it. */
  datatype QaGroups = QaGroups(answer: string, tail: IdTail)

  /**
   * Whether the answer group may end at position e (it spans text[3..e]):
   * it is non-empty and newline-free, followed by `-`, and the tail matches
   * after that.
   */
  predicate AnswerFits(s: string, e: nat) {
    4 <= e < |s| && (forall k :: 3 <= k < e ==> s[k] != '\n') && s[e] == '-' && MatchIdTail(s, e + 1).Some?
  }

  /** The lazy `(.+?)`: tries end positions e, e+1, ... and returns the first that fits, or -1. */
  function LazyEnd(s: string, e: nat): (r: int)
    requires e >= 4
    ensures r == -1 || e <= r < |s|
    decreases |s| - e
  {
    if e >= |s| then -1
    else if s[e - 1] == '\n' then -1
    else if s[e] == '-' && MatchIdTail(s, e + 1).Some? then e
    else LazyEnd(s, e + 1)
  }

  /**
   * Started where the answer so far is newline-free, the lazy search
   * returns the first end that fits, or -1 when none does.
   */
  lemma {:induction false} LazyEndSound(s: string, e: nat)
    requires e >= 4
    requires forall k :: 3 <= k < e - 1 && k < |s| ==> s[k] != '\n'
    ensures LazyEnd(s, e) == -1 || (e <= LazyEnd(s, e) && AnswerFits(s, LazyEnd(s, e)))
    ensures forall m: nat :: e <= m && (LazyEnd(s, e) == -1 || m < LazyEnd(s, e)) ==> !AnswerFits(s, m)
    decreases |s| - e
  {
    if e >= |s| {
      assert LazyEnd(s, e) == -1;
    } else if s[e - 1] == '\n' {
      forall m: nat | e <= m
        ensures !AnswerFits(s, m)
      {
        assert 3 <= e - 1 < m && s[e - 1] == '\n';
      }
    } else if s[e] == '-' && MatchIdTail(s, e + 1).Some? {
      assert LazyEnd(s, e) == e;
      assert AnswerFits(s, e);
    } else {
      assert !AnswerFits(s, e);
      LazyEndSound(s, e + 1);
      assert LazyEnd(s, e) == LazyEnd(s, e + 1);
    }
  }

  /** QA: `QA-`, the shortest answer group that fits, `-` and the tail. */
  function MatchQa(text: string): (r: Option<QaGroups>)
    ensures !StartsWith(text, "QA-") ==> r.None?
    ensures r.Some? ==> |r.value.answer| > 0 && 3 + |r.value.answer| + 1 + |IdTailText(r.value.tail)| <= |text|
  {
    if StartsWith(text, "QA-") then
      var e := LazyEnd(text, 4);
      if e == -1 then None
      else
        match MatchIdTail(text, e + 1)
        case None => None
        case Some(tail) => Some(QaGroups(text[3..e], tail))
    else None
  }

  /** The ids a tail match captures are non-empty alphanumeric runs. */
  lemma MatchIdTailIds(s: string, i: nat)
    requires i <= |s| && MatchIdTail(s, i).Some?
    ensures AllAlnum(MatchIdTail(s, i).value.sceneId) && AllAlnum(MatchIdTail(s, i).value.videoId)
  {
    var a := AlnumRun(s, i);
    var b := AlnumRun(s, i + a + 1);
    AlnumRunSpec(s, i);
    AlnumRunSpec(s, i + a + 1);
    var t := MatchIdTail(s, i).value;
    assert t.sceneId == s[i..i + a];
    assert t.videoId == s[i + a + 1..i + a + 1 + b];
  }

  /** The scene and video of a QA match are non-empty alphanumeric runs. */
  lemma MatchQaIds(text: string)
    requires MatchQa(text).Some?
    ensures AllAlnum(MatchQa(text).value.tail.sceneId) && AllAlnum(MatchQa(text).value.tail.videoId)
  {
    MatchIdTailIds(text, LazyEnd(text, 4) + 1);
  }

  /**
   * What the QA matcher returns: the answer group is the shortest that
   * fits, the tail is matched right after it, and there is no match only
   * when no answer end fits.
   */
  lemma MatchQaSound(text: string)
    ensures MatchQa(text).Some? ==>
      var g := MatchQa(text).value;
      && StartsWith(text, "QA-") && AnswerFits(text, 3 + |g.answer|)
      && g.answer == text[3..3 + |g.answer|]
      && Some(g.tail) == MatchIdTail(text, 4 + |g.answer|)
      && forall m: nat :: m < 3 + |g.answer| ==> !AnswerFits(text, m)
    ensures MatchQa(text).None? ==> !StartsWith(text, "QA-") || forall m: nat :: !AnswerFits(text, m)
  {
    if StartsWith(text, "QA-") {
      LazyEndSound(text, 4);
    }
  }

  /**
   * A QA text written from its groups is read back as those groups when the
   * answer has no `-` (an answer with a `-` can be cut short by the lazy
   * group, see below).
   */
  lemma MatchQaWritten(answer: string, t: IdTail)
    requires |answer| > 0 && NoNewline(answer) && '-' !in answer
    requires AllAlnum(t.sceneId) && AllAlnum(t.videoId) && |t.rest| > 0 && NoNewline(t.rest)
    ensures MatchQa("QA-" + answer + "-" + IdTailText(t)) == Some(QaGroups(answer, t))
  {
    var text := "QA-" + answer + "-" + IdTailText(t);
    var e := 3 + |answer|;
    assert text[..3] == "QA-";
    assert text[3..e] == answer;
    assert text[e] == '-';
    assert text[e + 1..] == IdTailText(t) + "";
    MatchIdTailComplete(text, e + 1, t, "");
    LazyEndSound(text, 4);
    forall m | 4 <= m < e
      ensures !AnswerFits(text, m)
    {
      assert text[m] == answer[m - 3];
    }
    assert AnswerFits(text, e);
  }

  /**
   * The lazy answer group stops at the first `-` after which the tail
   * matches: a written answer `p-<scene>_<video>-<more>` is cut back to
   * `p`, and the rest of it ends up in the tail's last group.
   */
  lemma LazyAnswerCutsShort(p: string, inner: IdTail, t: IdTail)
    requires |p| > 0 && NoNewline(p) && '-' !in p
    requires AllAlnum(inner.sceneId) && AllAlnum(inner.videoId) && |inner.rest| > 0 && NoNewline(inner.rest)
    requires AllAlnum(t.sceneId) && AllAlnum(t.videoId) && |t.rest| > 0 && NoNewline(t.rest)
    ensures MatchQa("QA-" + (p + "-" + IdTailText(inner)) + "-" + IdTailText(t))
         == Some(QaGroups(p, IdTail(inner.sceneId, inner.videoId, inner.rest + "-" + IdTailText(t))))
  {
    var cut := IdTail(inner.sceneId, inner.videoId, inner.rest + "-" + IdTailText(t));
    IdTailTextNoNewline(t);
    NoNewlineJoin(inner.rest, IdTailText(t));
    MatchQaWritten(p, cut);
    CutText(p, inner, t);
  }

  /** Two newline-free texts joined by `-` have no newline. */
  lemma NoNewlineJoin(x: string, y: string)
    requires NoNewline(x) && NoNewline(y)
    ensures NoNewline(x + "-" + y)
  {
    var z := x + "-" + y;
    forall k | 0 <= k < |z|
      ensures z[k] != '\n'
    {
      if k < |x| {
        assert z[k] == x[k];
      } else if k > |x| {
        assert z[k] == y[k - |x| - 1];
      }
    }
  }

  /** The written text of the cut-short answer, regrouped around the first tail. */
  lemma CutText(p: string, inner: IdTail, t: IdTail)
    ensures "QA-" + (p + "-" + IdTailText(inner)) + "-" + IdTailText(t)
         == "QA-" + p + "-" + IdTailText(IdTail(inner.sceneId, inner.videoId, inner.rest + "-" + IdTailText(t)))
  {
  }

  /** The text of groups without newlines has no newline. */
  lemma IdTailTextNoNewline(t: IdTail)
    requires AllAlnum(t.sceneId) && AllAlnum(t.videoId) && NoNewline(t.rest)
    ensures NoNewline(IdTailText(t))
  {
    var text := IdTailText(t);
    forall k | 0 <= k < |text|
      ensures text[k] != '\n'
    {
      var a, b := |t.sceneId|, |t.videoId|;
      if k < a {
        assert text[k] == t.sceneId[k];
      } else if a < k < a + 1 + b {
        assert text[k] == t.videoId[k - a - 1];
      } else if k > a + 1 + b {
        assert text[k] == t.rest[k - a - b - 2];
      }
    }
  }
}
