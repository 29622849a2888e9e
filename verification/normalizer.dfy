/**
 * The payload normalisers (app/normalizer.py): they turn the answers of the
 * first answer set of a request into a `Submission`. KIS reads scene and
 * video from the first answer's `mediaItemName` and the values from the
 * `start` fields; QA and TR read everything from answer texts shaped by
 * the patterns in the Patterns module. Every failure is a `NormalizeError`
 * in place of the source's `ValueError`.
 */
module Normalizer {
  import opened Wrappers
  import opened Text
  import opened Patterns
  import opened Models
  import opened Scoring

  /** One element of an answer set's `answers`; a field the request leaves out reads as "". */
  datatype Answer = Answer(mediaItemName: string, start: string, end: string, text: string)

  /** The normalisers' error cases, in the order the source raises them. */
  datatype NormalizeError =
    | NoAnswers
    | BadMediaItemName
    | NotAnInteger
    | NoSceneVideo
    | BadQaFormat
    | SceneMismatch
    | VideoMismatch
    | MoreThanOneAnswer
    | BadTrFormat
    | NoFrameIds

  /** A piece `int()` accepts after stripping, or a blank piece, which is skipped. */
  predicate PieceOk(p: string) {
    Strip(p) == "" || ParseInt(Strip(p)).Some?
  }

  /** One piece: nothing when it is blank, its integer otherwise. */
  function ParsePiece(p: string): (r: Result<seq<int>, NormalizeError>)
    ensures r.Success? <==> PieceOk(p)
    ensures r.Failure? ==> r.error == NotAnInteger
    ensures r.Success? && Strip(p) == "" ==> r.value == []
    ensures r.Success? && Strip(p) != "" ==> r.value == [ParseInt(Strip(p)).value]
  {
    var q := Strip(p);
    if q == "" then Success([])
    else
      match ParseInt(q)
      case None => Failure(NotAnInteger)
      case Some(v) => Success([v])
  }

  /** The pieces that are not blank once stripped, in order. */
  function NonBlank(pieces: seq<string>): (kept: seq<string>)
    ensures |kept| <= |pieces|
    ensures forall i :: 0 <= i < |kept| ==> Strip(kept[i]) != ""
  {
    if |pieces| == 0 then []
    else (if Strip(pieces[0]) == "" then [] else [pieces[0]]) + NonBlank(pieces[1..])
  }

  /** Every piece is blank or an integer. */
  predicate AllPiecesOk(pieces: seq<string>) {
    forall i :: 0 <= i < |pieces| ==> PieceOk(pieces[i])
  }

  /** Every piece is an integer once stripped. */
  predicate AllInts(pieces: seq<string>) {
    forall i :: 0 <= i < |pieces| ==> ParseInt(Strip(pieces[i])).Some?
  }

  /** Dropping the blank pieces of pieces that are blank or integers leaves integers only. */
  lemma {:induction false} NonBlankInts(pieces: seq<string>)
    requires AllPiecesOk(pieces)
    ensures AllInts(NonBlank(pieces))
  {
    if |pieces| > 0 {
      var rest := pieces[1..];
      assert forall i :: 0 <= i < |rest| ==> rest[i] == pieces[i + 1];
      NonBlankInts(rest);
      var head := if Strip(pieces[0]) == "" then [] else [pieces[0]];
      var kept := NonBlank(rest);
      forall i | 0 <= i < |head + kept|
        ensures ParseInt(Strip((head + kept)[i])).Some?
      {
        if i >= |head| {
          assert (head + kept)[i] == kept[i - |head|];
        }
      }
    }
  }

  /** The integer of every piece, in order. */
  function Values(kept: seq<string>): (vs: seq<int>)
    requires AllInts(kept)
    ensures |vs| == |kept|
  {
    seq(|kept|, i requires 0 <= i < |kept| => ParseInt(Strip(kept[i])).value)
  }

  /** The reference reading of a list of pieces: drop the blank ones, then take each one's integer. */
  function Ints(pieces: seq<string>): seq<int>
    requires AllPiecesOk(pieces)
  {
    NonBlankInts(pieces);
    Values(NonBlank(pieces))
  }

  /** Taking the integers of two lists one after the other is taking those of their concatenation. */
  lemma ValuesAppend(a: seq<string>, b: seq<string>)
    requires AllInts(a) && AllInts(b)
    ensures AllInts(a + b) && Values(a + b) == Values(a) + Values(b)
  {
    assert forall i :: 0 <= i < |a + b| ==> (a + b)[i] == if i < |a| then a[i] else b[i - |a|];
  }

  /** The reference reading takes the first piece's integer, if any, and then reads the rest. */
  lemma IntsCons(pieces: seq<string>)
    requires |pieces| > 0 && AllPiecesOk(pieces)
    ensures AllPiecesOk(pieces[1..])
    ensures Ints(pieces) == ParsePiece(pieces[0]).value + Ints(pieces[1..])
  {
    var rest := pieces[1..];
    assert forall i :: 0 <= i < |rest| ==> rest[i] == pieces[i + 1];
    var head := if Strip(pieces[0]) == "" then [] else [pieces[0]];
    assert NonBlank(pieces) == head + NonBlank(rest);
    NonBlankInts(rest);
    assert AllInts(head);
    ValuesAppend(head, NonBlank(rest));
    assert Values(head) == ParsePiece(pieces[0]).value;
  }

  /** The integers of the non-blank pieces, in order; the first piece that is not an integer fails. */
  function ParsePieces(pieces: seq<string>): (r: Result<seq<int>, NormalizeError>)
    ensures r.Failure? ==> r.error == NotAnInteger
    ensures r.Success? ==> |r.value| <= |pieces|
    ensures r.Success? ==> AllPiecesOk(pieces) && r.value == Ints(pieces)
  {
    if |pieces| == 0 then Success([])
    else
      var head :- ParsePiece(pieces[0]);
      var tail :- ParsePieces(pieces[1..]);
      assert forall i :: 1 <= i < |pieces| ==> pieces[i] == pieces[1..][i - 1];
      IntsCons(pieces);
      Success(head + tail)
  }

  /** The pieces parse exactly when every piece is blank or an integer. */
  lemma {:induction false} ParsePiecesOk(pieces: seq<string>)
    ensures ParsePieces(pieces).Success? <==> forall i :: 0 <= i < |pieces| ==> PieceOk(pieces[i])
  {
    if |pieces| > 0 {
      ParsePiecesOk(pieces[1..]);
      ParsePiecesStep(pieces);
      assert forall i :: 1 <= i < |pieces| ==> pieces[1..][i - 1] == pieces[i];
    }
  }

  /** The pieces parse exactly when the first piece and the rest do. */
  lemma ParsePiecesStep(pieces: seq<string>)
    requires |pieces| > 0
    ensures ParsePieces(pieces).Success? <==> PieceOk(pieces[0]) && ParsePieces(pieces[1..]).Success?
  {
  }

  /** A comma-separated list of integers, blank pieces skipped. */
  function CommaInts(s: string): (r: Result<seq<int>, NormalizeError>)
    ensures r.Failure? ==> r.error == NotAnInteger
    ensures r.Success? <==> AllPiecesOk(SplitOn(s, ','))
    ensures r.Success? ==> r.value == Ints(SplitOn(s, ','))
  {
    ParsePiecesOk(SplitOn(s, ','));
    ParsePieces(SplitOn(s, ','))
  }

  /** The rendering of each integer. */
  function Shows(values: seq<int>): (parts: seq<string>)
    ensures |parts| == |values|
    ensures forall i :: 0 <= i < |values| ==> parts[i] == Show(values[i])
  {
    seq(|values|, i requires 0 <= i < |values| => Show(values[i]))
  }

  /** Integers written as a client writes them: rendered and separated by commas. */
  function Render(values: seq<int>): (s: string)
    ensures NoNewline(s)
    ensures |values| > 0 ==> |s| > 0 && !IsWhitespace(s[0]) && !IsWhitespace(s[|s| - 1])
  {
    if |values| == 0 then ""
    else if |values| == 1 then Show(values[0])
    else Show(values[0]) + "," + Render(values[1..])
  }

  /** Rendered integers are read back one by one. */
  lemma {:induction false} ParsePiecesShows(values: seq<int>)
    ensures ParsePieces(Shows(values)).Success? && ParsePieces(Shows(values)).value == values
  {
    if |values| > 0 {
      var v, pieces := values[0], Shows(values);
      ParsePieceShow(v);
      ParsePiecesShows(values[1..]);
      ShowsCons(values);
      ParsePiecesCons(pieces);
      assert values == [v] + values[1..];
    }
  }

  /** A rendered integer is one piece holding that integer. */
  lemma ParsePieceShow(v: int)
    ensures ParsePiece(Show(v)).Success? && ParsePiece(Show(v)).value == [v]
  {
    StripUnchanged(Show(v));
    ParseShow(v);
  }

  /** When the first piece and the rest parse, the result is their values in order. */
  lemma ParsePiecesCons(pieces: seq<string>)
    requires |pieces| > 0 && ParsePiece(pieces[0]).Success? && ParsePieces(pieces[1..]).Success?
    ensures ParsePieces(pieces).Success?
    ensures ParsePieces(pieces).value == ParsePiece(pieces[0]).value + ParsePieces(pieces[1..]).value
  {
  }

  /** Splitting a rendered list at its commas gives the rendered integers. */
  lemma {:induction false} SplitRender(values: seq<int>)
    requires |values| > 0
    ensures SplitOn(Render(values), ',') == Shows(values)
  {
    if |values| == 1 {
      SplitFree(Show(values[0]), ',');
      assert Shows(values) == [Show(values[0])];
    } else {
      SplitRender(values[1..]);
      SplitRenderCons(values);
    }
  }

  /** One rendered integer more in front is one piece more in front. */
  lemma SplitRenderCons(values: seq<int>)
    requires |values| > 1
    requires SplitOn(Render(values[1..]), ',') == Shows(values[1..])
    ensures SplitOn(Render(values), ',') == Shows(values)
  {
    var v, rest := values[0], values[1..];
    assert Render(values) == Show(v) + [','] + Render(rest);
    SplitPrefix(Show(v), Render(rest), ',');
    ShowsCons(values);
  }

  lemma ShowsCons(values: seq<int>)
    requires |values| > 0
    ensures Shows(values) == [Show(values[0])] + Shows(values[1..])
  {
    var a, b := Shows(values), [Show(values[0])] + Shows(values[1..]);
    assert |a| == |b|;
    forall i | 0 <= i < |a|
      ensures a[i] == b[i]
    {
      if i > 0 {
        assert b[i] == Shows(values[1..])[i - 1];
      }
    }
  }

  /** A rendered list of integers is read back as the integers. */
  lemma CommaIntsRender(values: seq<int>)
    ensures CommaInts(Render(values)) == Success(values)
  {
    if |values| > 0 {
      SplitRender(values);
      ParsePiecesShows(values);
    }
  }

  /** The `start` field of every answer. */
  function Starts(answers: seq<Answer>): (starts: seq<string>)
    ensures |starts| == |answers|
    ensures forall i :: 0 <= i < |answers| ==> starts[i] == answers[i].start
  {
    seq(|answers|, i requires 0 <= i < |answers| => answers[i].start)
  }

  /** The KIS values: the integer of every non-blank stripped `start`, in answer order. */
  function StartValues(answers: seq<Answer>): (r: Result<seq<int>, NormalizeError>)
    ensures r.Success? <==> forall i :: 0 <= i < |answers| ==> PieceOk(answers[i].start)
    ensures r.Failure? ==> r.error == NotAnInteger
    ensures r.Success? ==> |r.value| <= |answers|
    ensures r.Success? ==> AllPiecesOk(Starts(answers)) && r.value == Ints(Starts(answers))
  {
    ParsePiecesOk(Starts(answers));
    ParsePieces(Starts(answers))
  }

  /**
   * KIS: scene and video are the two sides of the first `_` of the first
   * answer's stripped `mediaItemName` (later answers' names are never
   * read); the values come from the `start` fields and `end` is ignored.
   */
  function NormalizeKis(answers: seq<Answer>, qid: QuestionId): (r: Result<Submission, NormalizeError>)
    ensures |answers| == 0 ==> r == Failure(NoAnswers)
    ensures |answers| > 0 && '_' !in Strip(answers[0].mediaItemName) ==> r == Failure(BadMediaItemName)
    ensures |answers| > 0 && '_' in Strip(answers[0].mediaItemName) && !StartValues(answers).Success? ==>
      r == Failure(NotAnInteger)
    ensures |answers| > 0 && StartValues(answers).Success?
            && '_' in Strip(answers[0].mediaItemName)
            && !(0 < FirstIndex(Strip(answers[0].mediaItemName), '_') < |Strip(answers[0].mediaItemName)| - 1) ==>
      r == Failure(NoSceneVideo)
    ensures r.Success? <==>
      && |answers| > 0
      && 0 < FirstIndex(Strip(answers[0].mediaItemName), '_') < |Strip(answers[0].mediaItemName)| - 1
      && StartValues(answers).Success?
    ensures r.Success? ==>
      && r.value.questionId == qid && r.value.kind == KIS && r.value.answer == None
      && Strip(answers[0].mediaItemName) == r.value.sceneId + "_" + r.value.videoId
      && '_' !in r.value.sceneId && r.value.sceneId != "" && r.value.videoId != ""
      && r.value.values == StartValues(answers).value
    ensures r.Success? ==> AllPiecesOk(Starts(answers)) && r.value.values == Ints(Starts(answers))
  {
    if |answers| == 0 then Failure(NoAnswers)
    else KisOf(Strip(answers[0].mediaItemName), StartValues(answers), qid)
  }

  /** The KIS steps after the emptiness check: all NormalizeKis reads is the stripped first name and the values. */
  function KisOf(media: string, starts: Result<seq<int>, NormalizeError>, qid: QuestionId): (r: Result<Submission, NormalizeError>)
    ensures '_' !in media ==> r == Failure(BadMediaItemName)
    ensures '_' in media && starts.Failure? ==> r == Failure(starts.error)
    ensures '_' in media && starts.Success? && !(0 < FirstIndex(media, '_') < |media| - 1) ==> r == Failure(NoSceneVideo)
    ensures r.Success? <==> 0 < FirstIndex(media, '_') < |media| - 1 && starts.Success?
    ensures r.Success? ==>
      && r.value.questionId == qid && r.value.kind == KIS && r.value.answer == None
      && media == r.value.sceneId + "_" + r.value.videoId
      && '_' !in r.value.sceneId && r.value.sceneId != "" && r.value.videoId != ""
      && r.value.values == starts.value
  {
    match SplitFirst(media, '_')
    case None => Failure(BadMediaItemName)
    case Some(parts) =>
      var values :- starts;
      if parts.0 == "" || parts.1 == "" then Failure(NoSceneVideo)
      else Success(Submission(qid, KIS, parts.0, parts.1, values, None))
  }

  /** A KIS request as a client writes it: one answer per value, each naming the same item. */
  function KisAnswers(sceneId: string, videoId: string, values: seq<int>): (answers: seq<Answer>)
    ensures |answers| == |values|
  {
    seq(|values|, i requires 0 <= i < |values| =>
      Answer(sceneId + "_" + videoId, Show(values[i]), Show(values[i]), ""))
  }

  /** A KIS request written from a scene, a video and values is read back as them. */
  lemma NormalizeKisWritten(sceneId: string, videoId: string, values: seq<int>, qid: QuestionId)
    requires |values| > 0
    requires |sceneId| > 0 && |videoId| > 0 && '_' !in sceneId
    requires !IsWhitespace(sceneId[0]) && !IsWhitespace(videoId[|videoId| - 1])
    ensures NormalizeKis(KisAnswers(sceneId, videoId, values), qid)
         == Success(Submission(qid, KIS, sceneId, videoId, values, None))
  {
    var answers := KisAnswers(sceneId, videoId, values);
    var media := sceneId + "_" + videoId;
    assert answers[0].mediaItemName == media;
    StripUnchanged(media);
    KisStartValues(sceneId, videoId, values);
    KisOfWritten(sceneId, videoId, values, qid);
  }

  /** The `start` fields of a written KIS request parse back to its values. */
  lemma KisStartValues(sceneId: string, videoId: string, values: seq<int>)
    ensures StartValues(KisAnswers(sceneId, videoId, values)) == Success(values)
  {
    assert Starts(KisAnswers(sceneId, videoId, values)) == Shows(values);
    ParsePiecesShows(values);
  }

  /** A scene and a video joined by `_` are split back when the scene has no `_`. */
  lemma KisOfWritten(sceneId: string, videoId: string, values: seq<int>, qid: QuestionId)
    requires |sceneId| > 0 && |videoId| > 0 && '_' !in sceneId
    ensures KisOf(sceneId + "_" + videoId, Success(values), qid)
         == Success(Submission(qid, KIS, sceneId, videoId, values, None))
  {
    SplitFirstJoin(sceneId, videoId, '_');
  }

  /** Only the first answer's `mediaItemName` is read, and no `end` is. */
  lemma NormalizeKisReadsOnlyFirstNameAndStarts(answers: seq<Answer>, others: seq<Answer>, qid: QuestionId)
    requires |answers| == |others| && |answers| > 0
    requires others[0].mediaItemName == answers[0].mediaItemName
    requires forall i :: 0 <= i < |answers| ==> others[i].start == answers[i].start
    ensures NormalizeKis(others, qid) == NormalizeKis(answers, qid)
  {
    assert Starts(others) == Starts(answers);
    assert NormalizeKis(others, qid) == KisOf(Strip(answers[0].mediaItemName), StartValues(answers), qid);
  }

  /** The state of the QA loop after some answers: the agreed scene and video, the values so far and the last answer text. */
  datatype QaRead = QaRead(sceneId: string, videoId: string, values: seq<int>, answer: string)

  /** The groups of an answer's stripped text, if it has the QA shape. */
  function QaMatch(a: Answer): Option<QaGroups> {
    MatchQa(Strip(a.text))
  }

  /** A matched answer: its groups and its list of times, `None` when that list does not parse. */
  datatype QaParse = QaParse(groups: QaGroups, times: Option<seq<int>>)

  /** What the QA loop reads from one answer; `None` when it does not have the QA shape. */
  function QaReadOf(a: Answer): Option<QaParse> {
    match QaMatch(a)
    case None => None
    case Some(g) =>
      match CommaInts(g.tail.rest)
      case Success(times) => Some(QaParse(g, Some(times)))
      case Failure(_) => Some(QaParse(g, None))
  }

  /** What the QA loop reads from every answer, in order. */
  function QaReads(answers: seq<Answer>): (ms: seq<Option<QaParse>>)
    ensures |ms| == |answers|
  {
    if |answers| == 0 then []
    else QaReads(answers[..|answers| - 1]) + [QaReadOf(answers[|answers| - 1])]
  }

  /** The i-th read is what the QA loop reads from the i-th answer. */
  lemma {:induction false} QaReadsAt(answers: seq<Answer>, i: nat)
    requires i < |answers|
    ensures QaReads(answers)[i] == QaReadOf(answers[i])
  {
    if i < |answers| - 1 {
      QaReadsAt(answers[..|answers| - 1], i);
    }
  }


  /** One answer is one read. */
  lemma QaReadsOne(a: Answer)
    ensures QaReads([a]) == [QaReadOf(a)]
  {
    assert [a][..0] == [];
  }

  /** Two answers are two reads. */
  lemma QaReadsTwo(a1: Answer, a2: Answer)
    ensures QaReads([a1, a2]) == [QaReadOf(a1), QaReadOf(a2)]
  {
    assert [a1, a2][..1] == [a1];
    QaReadsOne(a1);
  }

  /** A read the QA loop accepts on its own: the QA shape and a readable list of times. */
  predicate ReadOk(m: Option<QaParse>) {
    m.Some? && m.value.times.Some?
  }

  /**
   * One turn of the QA loop: the answer must have the QA shape, its scene
   * and video must agree with the ones already read, and its times are
   * appended.
   */
  function QaStep(prev: Option<QaRead>, m: Option<QaParse>): (r: Result<QaRead, NormalizeError>)
    ensures r.Success? <==>
      && ReadOk(m)
      && (prev.Some? ==> prev.value.sceneId == m.value.groups.tail.sceneId)
      && (prev.Some? ==> prev.value.videoId == m.value.groups.tail.videoId)
    ensures r.Failure? ==> r.error in {BadQaFormat, SceneMismatch, VideoMismatch, NotAnInteger}
    ensures m.None? ==> r == Failure(BadQaFormat)
    ensures m.Some? && prev.Some? && prev.value.sceneId != m.value.groups.tail.sceneId ==> r == Failure(SceneMismatch)
    ensures m.Some? ==> (r == Failure(VideoMismatch) <==>
      prev.Some? && prev.value.sceneId == m.value.groups.tail.sceneId && prev.value.videoId != m.value.groups.tail.videoId)
    ensures r == Failure(NotAnInteger) ==> m.Some? && m.value.times.None?
    ensures r.Success? ==>
      && r.value.sceneId == m.value.groups.tail.sceneId
      && r.value.videoId == m.value.groups.tail.videoId
      && r.value.answer == m.value.groups.answer
      && r.value.values == (if prev.Some? then prev.value.values else []) + m.value.times.value
  {
    if m.None? then Failure(BadQaFormat)
    else
      var t := m.value.groups.tail;
      if prev.Some? && prev.value.sceneId != t.sceneId then Failure(SceneMismatch)
      else if prev.Some? && prev.value.videoId != t.videoId then Failure(VideoMismatch)
      else if m.value.times.None? then Failure(NotAnInteger)
      else
        var before := if prev.Some? then prev.value.values else [];
        Success(QaRead(t.sceneId, t.videoId, before + m.value.times.value, m.value.groups.answer))
  }

  /** The QA loop over the answers' reads in order; no answer yet is `None`. */
  function QaLoop(ms: seq<Option<QaParse>>): (r: Result<Option<QaRead>, NormalizeError>)
    ensures r.Success? ==> (r.value.Some? <==> |ms| > 0)
    ensures r.Failure? ==> r.error in {BadQaFormat, SceneMismatch, VideoMismatch, NotAnInteger}
  {
    if |ms| == 0 then Success(None)
    else
      var prev :- QaLoop(ms[..|ms| - 1]);
      var st :- QaStep(prev, ms[|ms| - 1]);
      Success(Some(st))
  }

  /** The loop over one read is one step from the empty state. */
  lemma QaLoopOne(m: Option<QaParse>)
    ensures QaLoop([m]).Success? <==> QaStep(None, m).Success?
    ensures QaLoop([m]).Success? ==> QaLoop([m]).value == Some(QaStep(None, m).value)
  {
    assert [m][..0] == [];
  }

  /** The loop over two reads is two steps. */
  lemma QaLoopTwo(m1: Option<QaParse>, m2: Option<QaParse>)
    ensures QaLoop([m1, m2]).Success? <==>
      QaStep(None, m1).Success? && QaStep(Some(QaStep(None, m1).value), m2).Success?
    ensures QaLoop([m1, m2]).Success? ==>
      QaLoop([m1, m2]).value == Some(QaStep(Some(QaStep(None, m1).value), m2).value)
    ensures QaStep(None, m1).Success? && QaStep(Some(QaStep(None, m1).value), m2).Failure? ==>
      QaLoop([m1, m2]) == Failure(QaStep(Some(QaStep(None, m1).value), m2).error)
  {
    QaLoopOne(m1);
    assert [m1, m2][..1] == [m1];
  }

  /** The times of acceptable reads, one read after the other. */
  function QaTimes(ms: seq<Option<QaParse>>): seq<int>
    requires forall i :: 0 <= i < |ms| ==> ReadOk(ms[i])
  {
    if |ms| == 0 then []
    else
      var last := ms[|ms| - 1];
      assert ReadOk(last);
      assert forall i :: 0 <= i < |ms| - 1 ==> ms[..|ms| - 1][i] == ms[i];
      QaTimes(ms[..|ms| - 1]) + last.value.times.value
  }

  /** Every read is acceptable and names the same scene and video as the first. */
  predicate ReadsAgree(ms: seq<Option<QaParse>>) {
    && (forall i :: 0 <= i < |ms| ==> ReadOk(ms[i]))
    && (forall i :: 0 <= i < |ms| ==>
          ms[i].value.groups.tail.sceneId == ms[0].value.groups.tail.sceneId
          && ms[i].value.groups.tail.videoId == ms[0].value.groups.tail.videoId)
  }

  /** Dropping the last read keeps the reads in agreement. */
  lemma ReadsAgreeInit(ms: seq<Option<QaParse>>)
    requires |ms| > 0 && ReadsAgree(ms)
    ensures ReadsAgree(ms[..|ms| - 1])
  {
    var init := ms[..|ms| - 1];
    assert forall i :: 0 <= i < |init| ==> init[i] == ms[i];
  }

  /** Reads in agreement stay so when a read that agrees with the first is appended. */
  lemma ReadsAgreeSnoc(ms: seq<Option<QaParse>>)
    requires |ms| > 1 && ReadsAgree(ms[..|ms| - 1]) && ReadOk(ms[|ms| - 1])
    requires ms[|ms| - 1].value.groups.tail.sceneId == ms[0].value.groups.tail.sceneId
    requires ms[|ms| - 1].value.groups.tail.videoId == ms[0].value.groups.tail.videoId
    ensures ReadsAgree(ms)
  {
    var init := ms[..|ms| - 1];
    assert forall i :: 0 <= i < |init| ==> init[i] == ms[i];
  }

  /**
   * A successful QA loop means the reads agree, and it keeps the first
   * read's scene and video, every read's times in order, and the last
   * read's answer text.
   */
  lemma {:induction false} QaLoopSound(ms: seq<Option<QaParse>>)
    requires QaLoop(ms).Success?
    ensures ReadsAgree(ms)
    ensures |ms| > 0 ==>
      && QaLoop(ms).value.value.sceneId == ms[0].value.groups.tail.sceneId
      && QaLoop(ms).value.value.videoId == ms[0].value.groups.tail.videoId
      && QaLoop(ms).value.value.answer == ms[|ms| - 1].value.groups.answer
      && QaLoop(ms).value.value.values == QaTimes(ms)
  {
    if |ms| > 0 {
      var init := ms[..|ms| - 1];
      var last := ms[|ms| - 1];
      var prev := QaLoop(init);
      assert prev.Success?;
      QaLoopSound(init);
      var st := QaStep(prev.value, last);
      assert st.Success? && QaLoop(ms).value == Some(st.value);
      if |ms| > 1 {
        assert init[0] == ms[0];
        ReadsAgreeSnoc(ms);
      } else {
        assert QaTimes(init) == [];
      }
    }
  }

  /** Reads in agreement make the QA loop succeed. */
  lemma {:induction false} QaLoopComplete(ms: seq<Option<QaParse>>)
    requires ReadsAgree(ms)
    ensures QaLoop(ms).Success?
  {
    if |ms| > 0 {
      var init := ms[..|ms| - 1];
      var last := ms[|ms| - 1];
      ReadsAgreeInit(ms);
      QaLoopComplete(init);
      var prev := QaLoop(init);
      if |ms| > 1 {
        QaLoopSound(init);
        assert init[0] == ms[0];
      }
      assert ReadOk(last);
      assert QaStep(prev.value, last).Success?;
    }
  }

  /**
   * The QA loop succeeds exactly when the reads agree, and then keeps the
   * first read's scene and video, every read's times in order, and the
   * last read's answer text.
   */
  lemma QaLoopSucceeds(ms: seq<Option<QaParse>>)
    ensures QaLoop(ms).Success? <==> ReadsAgree(ms)
    ensures QaLoop(ms).Success? && |ms| > 0 ==>
      && QaLoop(ms).value.value.sceneId == ms[0].value.groups.tail.sceneId
      && QaLoop(ms).value.value.videoId == ms[0].value.groups.tail.videoId
      && QaLoop(ms).value.value.answer == ms[|ms| - 1].value.groups.answer
      && QaLoop(ms).value.value.values == QaTimes(ms)
  {
    if QaLoop(ms).Success? {
      QaLoopSound(ms);
    }
    if ReadsAgree(ms) {
      QaLoopComplete(ms);
    }
  }

  /**
   * QA: every answer is matched and the reads must agree; the values are
   * all their times in order and the answer text is the last answer's. The
   * check for an empty scene or video at the end can never fire (see
   * NormalizeQaAccepts).
   */
  function NormalizeQa(answers: seq<Answer>, qid: QuestionId): (r: Result<Submission, NormalizeError>)
    ensures |answers| == 0 ==> r == Failure(NoAnswers)
    ensures r.Success? ==> r.value.questionId == qid && r.value.kind == QA && r.value.answer.Some?
  {
    if |answers| == 0 then Failure(NoAnswers)
    else QaSubmission(QaLoop(QaReads(answers)), qid)
  }

  /** The end of the QA normaliser: the loop's error, or its state as a submission. */
  function QaSubmission(loop: Result<Option<QaRead>, NormalizeError>, qid: QuestionId): (r: Result<Submission, NormalizeError>)
    ensures loop.Failure? ==> r == Failure(loop.error)
    ensures loop.Success? && (loop.value.None? || loop.value.value.sceneId == "" || loop.value.value.videoId == "") ==>
      r == Failure(NoSceneVideo)
    ensures r.Success? ==>
      && loop.Success? && loop.value.Some?
      && r.value == Submission(qid, QA, loop.value.value.sceneId, loop.value.value.videoId,
                               loop.value.value.values, Some(loop.value.value.answer))
      && r.value.sceneId != "" && r.value.videoId != ""
  {
    var st :- loop;
    if st.None? || st.value.sceneId == "" || st.value.videoId == "" then Failure(NoSceneVideo)
    else Success(Submission(qid, QA, st.value.sceneId, st.value.videoId, st.value.values, Some(st.value.answer)))
  }

  /** A matched answer's scene and video are alphanumeric runs, never empty. */
  lemma QaMatchIds(a: Answer)
    requires QaMatch(a).Some?
    ensures AllAlnum(QaMatch(a).value.tail.sceneId) && AllAlnum(QaMatch(a).value.tail.videoId)
  {
    MatchQaIds(Strip(a.text));
  }

  /** A read, when there is one, names a scene and a video. */
  predicate ReadNamed(m: Option<QaParse>) {
    m.Some? ==> m.value.groups.tail.sceneId != "" && m.value.groups.tail.videoId != ""
  }

  /** Every read taken from an answer names a scene and a video. */
  lemma QaReadNamed(a: Answer)
    ensures ReadNamed(QaReadOf(a))
  {
    if QaMatch(a).Some? {
      QaMatchIds(a);
    }
  }

  /** Every read of a request names a scene and a video. */
  lemma {:induction false} QaReadsNamed(answers: seq<Answer>)
    ensures forall i :: 0 <= i < |answers| ==> ReadNamed(QaReads(answers)[i])
  {
    if |answers| > 0 {
      var init := answers[..|answers| - 1];
      QaReadsNamed(init);
      QaReadNamed(answers[|answers| - 1]);
    }
  }

  /**
   * Over reads that name their scene and video, the end of the QA
   * normaliser succeeds exactly when the reads agree, never reports a
   * missing scene or video, and keeps the first read's scene and video,
   * every read's times in order, and the last read's answer text.
   */
  lemma QaSubmissionAccepts(ms: seq<Option<QaParse>>, qid: QuestionId)
    requires |ms| > 0 && forall i :: 0 <= i < |ms| ==> ReadNamed(ms[i])
    ensures QaSubmission(QaLoop(ms), qid).Success? <==> ReadsAgree(ms)
    ensures QaSubmission(QaLoop(ms), qid) != Failure(NoSceneVideo)
    ensures QaSubmission(QaLoop(ms), qid).Success? ==>
      && QaSubmission(QaLoop(ms), qid).value.sceneId == ms[0].value.groups.tail.sceneId
      && QaSubmission(QaLoop(ms), qid).value.videoId == ms[0].value.groups.tail.videoId
      && QaSubmission(QaLoop(ms), qid).value.answer == Some(ms[|ms| - 1].value.groups.answer)
      && QaSubmission(QaLoop(ms), qid).value.values == QaTimes(ms)
  {
    QaLoopSucceeds(ms);
    assert ReadNamed(ms[0]);
  }

  /**
   * The QA normaliser accepts exactly the non-empty requests whose reads
   * all have the QA shape, readable times, and the first read's scene and
   * video; it keeps those, every read's times in order, and the last read's
   * answer text. Its check for an empty scene or video can never fire.
   */
  lemma NormalizeQaAccepts(answers: seq<Answer>, qid: QuestionId)
    ensures NormalizeQa(answers, qid).Success? <==> |answers| > 0 && ReadsAgree(QaReads(answers))
    ensures NormalizeQa(answers, qid) != Failure(NoSceneVideo)
    ensures NormalizeQa(answers, qid).Success? ==>
      && NormalizeQa(answers, qid).value.sceneId == QaReads(answers)[0].value.groups.tail.sceneId
      && NormalizeQa(answers, qid).value.videoId == QaReads(answers)[0].value.groups.tail.videoId
      && NormalizeQa(answers, qid).value.answer == Some(QaReads(answers)[|answers| - 1].value.groups.answer)
      && NormalizeQa(answers, qid).value.values == QaTimes(QaReads(answers))
  {
    if |answers| > 0 {
      QaReadsNamed(answers);
      QaSubmissionAccepts(QaReads(answers), qid);
    }
  }

  /** A QA answer text as a client writes it. */
  function QaText(answer: string, sceneId: string, videoId: string, values: seq<int>): string {
    "QA-" + answer + "-" + IdTailText(IdTail(sceneId, videoId, Render(values)))
  }

  /** The answer-text shape a client can rely on: non-empty, one line, no `-`. */
  predicate PlainAnswer(answer: string) {
    |answer| > 0 && NoNewline(answer) && '-' !in answer
  }

  /** A written QA text is matched with its own groups. */
  lemma QaTextMatches(answer: string, sceneId: string, videoId: string, values: seq<int>)
    requires PlainAnswer(answer) && AllAlnum(sceneId) && AllAlnum(videoId) && |values| > 0
    ensures QaMatch(Answer("", "", "", QaText(answer, sceneId, videoId, values)))
         == Some(QaGroups(answer, IdTail(sceneId, videoId, Render(values))))
  {
    var t := IdTail(sceneId, videoId, Render(values));
    var text := QaText(answer, sceneId, videoId, values);
    LastOfAppend(sceneId + "_" + videoId + "-", Render(values));
    LastOfAppend("QA-" + answer + "-", IdTailText(t));
    assert text[0] == 'Q';
    StripUnchanged(text);
    MatchQaWritten(answer, t);
  }

  /** A written QA answer is read as its groups and its values. */
  lemma QaReadOfWritten(answer: string, sceneId: string, videoId: string, values: seq<int>)
    requires PlainAnswer(answer) && AllAlnum(sceneId) && AllAlnum(videoId) && |values| > 0
    ensures QaReadOf(Answer("", "", "", QaText(answer, sceneId, videoId, values)))
         == Some(QaParse(QaGroups(answer, IdTail(sceneId, videoId, Render(values))), Some(values)))
  {
    QaTextMatches(answer, sceneId, videoId, values);
    CommaIntsRender(values);
  }

  /** A QA request of one written answer is read back as its answer, scene, video and values. */
  lemma NormalizeQaWritten(answer: string, sceneId: string, videoId: string, values: seq<int>, qid: QuestionId)
    requires PlainAnswer(answer) && AllAlnum(sceneId) && AllAlnum(videoId) && |values| > 0
    ensures NormalizeQa([Answer("", "", "", QaText(answer, sceneId, videoId, values))], qid)
         == Success(Submission(qid, QA, sceneId, videoId, values, Some(answer)))
  {
    var a := Answer("", "", "", QaText(answer, sceneId, videoId, values));
    QaReadOfWritten(answer, sceneId, videoId, values);
    QaReadsOne(a);
    QaSubmissionOne(QaGroups(answer, IdTail(sceneId, videoId, Render(values))), values, qid);
  }

  /** One read with a scene, a video and readable times is the whole submission. */
  lemma QaSubmissionOne(g: QaGroups, values: seq<int>, qid: QuestionId)
    requires g.tail.sceneId != "" && g.tail.videoId != ""
    ensures QaSubmission(QaLoop([Some(QaParse(g, Some(values)))]), qid)
         == Success(Submission(qid, QA, g.tail.sceneId, g.tail.videoId, values, Some(g.answer)))
  {
    var m := Some(QaParse(g, Some(values)));
    assert [] + values == values;
    assert QaStep(None, m) == Success(QaRead(g.tail.sceneId, g.tail.videoId, values, g.answer));
    QaLoopOne(m);
  }


  /** Two agreeing reads: their values are concatenated in order and the second answer text is kept. */
  lemma QaSubmissionTwo(g1: QaGroups, values1: seq<int>, g2: QaGroups, values2: seq<int>, qid: QuestionId)
    requires g1.tail.sceneId == g2.tail.sceneId != "" && g1.tail.videoId == g2.tail.videoId != ""
    ensures QaSubmission(QaLoop([Some(QaParse(g1, Some(values1))), Some(QaParse(g2, Some(values2)))]), qid)
         == Success(Submission(qid, QA, g1.tail.sceneId, g1.tail.videoId, values1 + values2, Some(g2.answer)))
  {
    var m1 := Some(QaParse(g1, Some(values1)));
    var m2 := Some(QaParse(g2, Some(values2)));
    var st1 := QaRead(g1.tail.sceneId, g1.tail.videoId, values1, g1.answer);
    var st2 := QaRead(g1.tail.sceneId, g1.tail.videoId, values1 + values2, g2.answer);
    assert [] + values1 == values1;
    assert QaStep(None, m1) == Success(st1);
    assert QaStep(Some(st1), m2) == Success(st2);
    QaLoopTwo(m1, m2);
  }

  /** A second read naming another scene stops the loop with a scene mismatch. */
  lemma QaSubmissionSceneMismatch(g1: QaGroups, values1: seq<int>, m2: Option<QaParse>, qid: QuestionId)
    requires m2.Some? && m2.value.groups.tail.sceneId != g1.tail.sceneId
    ensures QaSubmission(QaLoop([Some(QaParse(g1, Some(values1))), m2]), qid) == Failure(SceneMismatch)
  {
    var m1 := Some(QaParse(g1, Some(values1)));
    var st1 := QaRead(g1.tail.sceneId, g1.tail.videoId, values1, g1.answer);
    assert [] + values1 == values1;
    assert QaStep(None, m1) == Success(st1);
    assert QaStep(Some(st1), m2) == Failure(SceneMismatch);
    QaLoopTwo(m1, m2);
  }

  /**
   * Two written answers for the same scene and video: the values are
   * concatenated in order and the second answer's text is kept.
   */
  lemma NormalizeQaTwoWritten(answer1: string, values1: seq<int>, answer2: string, values2: seq<int>,
                              sceneId: string, videoId: string, qid: QuestionId)
    requires PlainAnswer(answer1) && PlainAnswer(answer2)
    requires AllAlnum(sceneId) && AllAlnum(videoId) && |values1| > 0 && |values2| > 0
    ensures NormalizeQa([Answer("", "", "", QaText(answer1, sceneId, videoId, values1)),
                         Answer("", "", "", QaText(answer2, sceneId, videoId, values2))], qid)
         == Success(Submission(qid, QA, sceneId, videoId, values1 + values2, Some(answer2)))
  {
    var a1 := Answer("", "", "", QaText(answer1, sceneId, videoId, values1));
    var a2 := Answer("", "", "", QaText(answer2, sceneId, videoId, values2));
    var g1 := QaGroups(answer1, IdTail(sceneId, videoId, Render(values1)));
    var g2 := QaGroups(answer2, IdTail(sceneId, videoId, Render(values2)));
    QaReadOfWritten(answer1, sceneId, videoId, values1);
    QaReadOfWritten(answer2, sceneId, videoId, values2);
    QaReadsTwo(a1, a2);
    QaSubmissionTwo(g1, values1, g2, values2, qid);
  }

  /** Two written answers naming different scenes are rejected. */
  lemma NormalizeQaSceneMismatch(answer1: string, scene1: string, answer2: string, scene2: string,
                                 videoId: string, values: seq<int>, qid: QuestionId)
    requires PlainAnswer(answer1) && PlainAnswer(answer2)
    requires AllAlnum(scene1) && AllAlnum(scene2) && AllAlnum(videoId) && |values| > 0
    requires scene1 != scene2
    ensures NormalizeQa([Answer("", "", "", QaText(answer1, scene1, videoId, values)),
                         Answer("", "", "", QaText(answer2, scene2, videoId, values))], qid)
         == Failure(SceneMismatch)
  {
    var a1 := Answer("", "", "", QaText(answer1, scene1, videoId, values));
    var a2 := Answer("", "", "", QaText(answer2, scene2, videoId, values));
    var g1 := QaGroups(answer1, IdTail(scene1, videoId, Render(values)));
    var g2 := QaGroups(answer2, IdTail(scene2, videoId, Render(values)));
    QaReadOfWritten(answer1, scene1, videoId, values);
    QaReadOfWritten(answer2, scene2, videoId, values);
    QaReadsTwo(a1, a2);
    QaSubmissionSceneMismatch(g1, values, Some(QaParse(g2, Some(values))), qid);
  }

  /**
   * The QA normaliser as app/normalizer.py writes it: the answer group is
   * matched and then dropped, so the submission carries no answer text.
   */
  function NormalizeQaAsWritten(answers: seq<Answer>, qid: QuestionId): (r: Result<Submission, NormalizeError>)
    ensures r.Success? <==> NormalizeQa(answers, qid).Success?
    ensures r.Success? ==> r.value.answer == None
  {
    match NormalizeQa(answers, qid)
    case Success(sub) => Success(sub.(answer := None))
    case Failure(e) => Failure(e)
  }

  /**
   * As written, a QA question whose ground truth has an answer is never
   * scored: whatever the request, the submission fails the answer gate.
   */
  lemma AsWrittenQaNeverPassesAnswerGate(answers: seq<Answer>, qid: QuestionId, gt: GroundTruth,
                                         tSubmit: real, k: nat, params: ScoringParams)
    requires NormalizeQaAsWritten(answers, qid).Success?
    requires ValidGroundTruth(gt) && TimeFactorDefined(tSubmit, params.timeLimit)
    requires gt.kind == QA && AnswerRequired(gt)
    ensures ScoreSubmission(NormalizeQaAsWritten(answers, qid).value, gt, tSubmit, k, params).score == 0.0
    ensures !PassesGates(NormalizeQaAsWritten(answers, qid).value, gt)
  {
  }

  /** The request that shows it: the expected answer, scene, video and every event's start, still scores 0. */
  lemma AsWrittenQaExample(gt: GroundTruth, tSubmit: real, k: nat, params: ScoringParams)
    requires ValidGroundTruth(gt) && TimeFactorDefined(tSubmit, params.timeLimit) && |gt.points| > 0
    requires gt.kind == QA && AnswerRequired(gt) && PlainAnswer(gt.answer.value)
    requires AllAlnum(gt.sceneId) && AllAlnum(gt.videoId)
    ensures var answers := [Answer("", "", "", QaText(gt.answer.value, gt.sceneId, gt.videoId, gt.points))];
      && NormalizeQa(answers, gt.questionId).Success?
      && PassesGates(NormalizeQa(answers, gt.questionId).value, gt)
      && ScoreSubmission(NormalizeQaAsWritten(answers, gt.questionId).value, gt, tSubmit, k, params).verdict
         == MissingAnswer
  {
    NormalizeQaWritten(gt.answer.value, gt.sceneId, gt.videoId, gt.points, gt.questionId);
  }

  /**
   * TR: exactly one answer, whose stripped text is `TR-`, the scene and
   * video, and a comma-separated list of frame numbers with at least one.
   */
  function NormalizeTr(answers: seq<Answer>, qid: QuestionId): (r: Result<Submission, NormalizeError>)
    ensures |answers| == 0 ==> r == Failure(NoAnswers)
    ensures |answers| > 1 ==> r == Failure(MoreThanOneAnswer)
    ensures |answers| == 1 ==> (MatchTr(Strip(answers[0].text)).None? <==> r == Failure(BadTrFormat))
    ensures r.Success? ==>
      && |answers| == 1
      && r.value.questionId == qid && r.value.kind == TR && r.value.answer == None
      && |r.value.values| > 0
      && MatchTr(Strip(answers[0].text)) == Some(IdTail(r.value.sceneId, r.value.videoId, MatchTr(Strip(answers[0].text)).value.rest))
      && CommaInts(MatchTr(Strip(answers[0].text)).value.rest) == Success(r.value.values)
    ensures r.Success? ==>
      var frames := SplitOn(MatchTr(Strip(answers[0].text)).value.rest, ',');
      AllPiecesOk(frames) && r.value.values == Ints(frames)
    ensures |answers| == 1 && MatchTr(Strip(answers[0].text)).Some? ==>
      var frames := CommaInts(MatchTr(Strip(answers[0].text)).value.rest);
      && (frames.Failure? ==> r == Failure(NotAnInteger))
      && (frames == Success([]) ==> r == Failure(NoFrameIds))
  {
    if |answers| == 0 then Failure(NoAnswers)
    else if |answers| > 1 then Failure(MoreThanOneAnswer)
    else
      match MatchTr(Strip(answers[0].text))
      case None => Failure(BadTrFormat)
      case Some(t) =>
        var values :- CommaInts(t.rest);
        if values == [] then Failure(NoFrameIds)
        else Success(Submission(qid, TR, t.sceneId, t.videoId, values, None))
  }

  /** A TR answer text as a client writes it. */
  function TrText(sceneId: string, videoId: string, values: seq<int>): string {
    "TR-" + IdTailText(IdTail(sceneId, videoId, Render(values)))
  }

  /** A TR request written from a scene, a video and frame numbers is read back as them. */
  lemma NormalizeTrWritten(sceneId: string, videoId: string, values: seq<int>, qid: QuestionId)
    requires AllAlnum(sceneId) && AllAlnum(videoId) && |values| > 0
    ensures NormalizeTr([Answer("", "", "", TrText(sceneId, videoId, values))], qid)
         == Success(Submission(qid, TR, sceneId, videoId, values, None))
  {
    var t := IdTail(sceneId, videoId, Render(values));
    var text := TrText(sceneId, videoId, values);
    LastOfAppend(sceneId + "_" + videoId + "-", Render(values));
    LastOfAppend("TR-", IdTailText(t));
    assert text[0] == 'T';
    StripUnchanged(text);
    MatchTrWritten(IdTail(sceneId, videoId, Render(values)));
    CommaIntsRender(values);
  }

  /** A TR text whose frame list holds only commas is well-shaped but carries no frame. */
  lemma NormalizeTrBlankFrames(sceneId: string, videoId: string, qid: QuestionId)
    requires AllAlnum(sceneId) && AllAlnum(videoId)
    ensures NormalizeTr([Answer("", "", "", "TR-" + IdTailText(IdTail(sceneId, videoId, ",")))], qid)
         == Failure(NoFrameIds)
  {
    var text := "TR-" + IdTailText(IdTail(sceneId, videoId, ","));
    assert text[0] == 'T' && text[|text| - 1] == ',';
    StripUnchanged(text);
    MatchTrWritten(IdTail(sceneId, videoId, ","));
    assert SplitOn(",", ',') == ["", ""];
  }
}
