/**
 * The submit endpoint's decision sequence. The request's answer sets, the
 * server configuration, the session table, the ground-truth table and the
 * clock are inputs; the endpoint's reply and the session table afterwards
 * are the outputs. Every submission is filed under one fixed team.
 */
module Submit {
  import opened Wrappers
  import opened Models
  import opened Scoring
  import opened Normalizer
  import opened Session

  /** The one team every submission is filed under. */
  const CompetitionTeam: TeamId := "0THING2LOSE"

  /** What the endpoint reads from the configuration: the active question (0 when none) and the scoring parameters. */
  datatype Config = Config(activeQuestionId: QuestionId, params: ScoringParams)

  datatype Correctness = Full | Partial

  /** The endpoint's replies, one per branch of the decision sequence. */
  datatype Outcome =
    | AnswerSetsRequired
    | NoActiveQuestion
    | TimeLimitExceeded(elapsed: real, timeLimit: int, bufferTime: int)
    | AlreadyCompleted(finalScore: Option<real>, completedAt: real)
    | QuestionNotFound
    | UnknownTaskType
    | InvalidFormat(error: NormalizeError)
    | InternalError
    | Correct(correctness: Correctness, score: real, result: ScoreResult, elapsed: real, wrongCount: nat)
    | Incorrect(result: ScoreResult, elapsed: real, remaining: real, wrongCount: nat)
  {
    /** The replies that come from scoring the submission; every other reply happens before scoring. */
    predicate Scored() {
      Correct? || Incorrect?
    }
  }

  /** The normaliser for the question's task type; a type without one is refused. */
  function NormalizeFor(kind: TaskType, answers: seq<Answer>, qid: QuestionId): (r: Result<Submission, Outcome>)
    ensures kind == Unknown <==> r == Failure(UnknownTaskType)
    ensures r.Failure? && kind != Unknown ==> r.error.InvalidFormat?
    ensures |answers| == 0 && kind != Unknown ==> r == Failure(InvalidFormat(NoAnswers))
    ensures r.Success? ==> r.value.questionId == qid && r.value.kind == kind
  {
    var n := match kind
      case KIS => NormalizeKis(answers, qid)
      case QA => NormalizeQa(answers, qid)
      case TR => NormalizeTr(answers, qid)
      case Unknown => Failure(NoAnswers);
    if kind == Unknown then Failure(UnknownTaskType)
    else if n.Failure? then Failure(InvalidFormat(n.error))
    else Success(n.value)
  }

  /** The wrong attempts the team has on record before this submission; 0 without an entry. */
  function PriorWrongCount(ss: Sessions, qid: QuestionId): (k: nat)
    ensures GetTeamSubmission(ss, qid, CompetitionTeam).None? ==> k == 0
    ensures GetTeamSubmission(ss, qid, CompetitionTeam).Some? ==>
              k == GetTeamSubmission(ss, qid, CompetitionTeam).value.wrongCount
  {
    match GetTeamSubmission(ss, qid, CompetitionTeam)
    case Some(e) => e.wrongCount
    case None => 0
  }

  /** Whether the team already completed the question. */
  predicate TeamCompleted(ss: Sessions, qid: QuestionId) {
    var e := GetTeamSubmission(ss, qid, CompetitionTeam);
    e.Some? && e.value.isCompleted
  }

  /**
   * The checks that run before anything is normalised, in the source's
   * order. A completed entry without a first-correct time makes the
   * source's subtraction fail, which the endpoint reports as an internal
   * error; a well-formed table has no such entry.
   */
  function Gate(answerSets: seq<seq<Answer>>, cfg: Config, ss: Sessions, now: real): (r: Option<Outcome>)
    ensures r.Some? ==> !r.value.Scored()
    ensures r.None? <==> |answerSets| > 0 && cfg.activeQuestionId != 0
                         && IsQuestionActive(ss, cfg.activeQuestionId, now) && !TeamCompleted(ss, cfg.activeQuestionId)
    ensures |answerSets| == 0 ==> r == Some(AnswerSetsRequired)
    ensures |answerSets| > 0 && cfg.activeQuestionId == 0 ==> r == Some(NoActiveQuestion)
  {
    var qid := cfg.activeQuestionId;
    if |answerSets| == 0 then Some(AnswerSetsRequired)
    else if qid == 0 then Some(NoActiveQuestion)
    else if !IsQuestionActive(ss, qid, now) then
      var session := GetQuestionSession(ss, qid);
      Some(TimeLimitExceeded(GetElapsedTime(ss, qid, now),
                             if session.Some? then session.value.timeLimit else DefaultTimeLimit,
                             if session.Some? then session.value.bufferTime else DefaultBufferTime))
    else if TeamCompleted(ss, qid) then
      var e := ss[qid].ledger[CompetitionTeam];
      match e.firstCorrectTime
      case Some(t) => Some(AlreadyCompleted(e.finalScore, t - ss[qid].startTime))
      case None => Some(InternalError)
    else None
  }

  /**
   * Scoring a normalised submission and recording it: the score is taken
   * at the elapsed time against the team's wrong attempts so far, and the
   * record is correct exactly when the correctness factor is positive,
   * carrying the score only then. A zero time limit with a clock reading
   * before the session's start makes the time factor divide by zero, which
   * the endpoint reports as an internal error.
   */
  function ScoreAndRecord(ss: Sessions, qid: QuestionId, sub: Submission, gt: GroundTruth, params: ScoringParams,
                          now: real): (r: (Outcome, Sessions))
    requires qid in ss && ValidGroundTruth(gt)
    ensures !TimeFactorDefined(now - ss[qid].startTime, params.timeLimit) <==> r == (InternalError, ss)
    ensures r.0.Scored() <==> TimeFactorDefined(now - ss[qid].startTime, params.timeLimit)
    ensures r.0.Scored() ==>
              r.0.result == ScoreSubmission(sub, gt, now - ss[qid].startTime, PriorWrongCount(ss, qid), params)
    ensures r.0.Correct? ==> r.0.result.correctnessFactor > 0.0 && r.0.score == r.0.result.score
    ensures r.0.Correct? ==> (r.0.correctness == Full <==> r.0.result.correctnessFactor == 1.0)
    ensures r.0.Incorrect? ==> r.0.result.correctnessFactor <= 0.0
    ensures r.0.Scored() ==> r.1 == RecordSubmission(ss, qid, CompetitionTeam, r.0.Correct?,
                                                     if r.0.Correct? then Some(r.0.score) else None, now).0
  {
    var elapsed := GetElapsedTime(ss, qid, now);
    var k := PriorWrongCount(ss, qid);
    if !TimeFactorDefined(elapsed, params.timeLimit) then (InternalError, ss)
    else
      var result := ScoreSubmission(sub, gt, elapsed, k, params);
      var isCorrect := result.correctnessFactor > 0.0;
      var recorded := RecordSubmission(ss, qid, CompetitionTeam, isCorrect,
                                       if isCorrect then Some(result.score) else None, now).0;
      if isCorrect then
        (Correct(if result.correctnessFactor == 1.0 then Full else Partial, result.score, result, elapsed, k),
         recorded)
      else
        (Incorrect(result, elapsed, GetRemainingTime(recorded, qid, now), k + 1), recorded)
  }

  /**
   * After a scored submission the team's entry has one more timestamp and
   * nothing else in the table changes; an incorrect one reports the wrong
   * count the ledger now holds, one more than before, and a correct one
   * reports the prior wrong count and completes the team, when it had not
   * completed yet, with this score at this time.
   */
  lemma ScoreAndRecordLedgerEffect(ss: Sessions, qid: QuestionId, sub: Submission, gt: GroundTruth,
                                   params: ScoringParams, now: real)
    requires qid in ss && ValidGroundTruth(gt)
    requires ScoreAndRecord(ss, qid, sub, gt, params, now).0.Scored()
    ensures var r := ScoreAndRecord(ss, qid, sub, gt, params, now);
            qid in r.1 && CompetitionTeam in r.1[qid].ledger
            && (forall q :: q in ss && q != qid ==> r.1[q] == ss[q])
            && (forall t :: t in ss[qid].ledger && t != CompetitionTeam ==> r.1[qid].ledger[t] == ss[qid].ledger[t])
            && |r.1[qid].ledger[CompetitionTeam].submitTimes|
               == (if CompetitionTeam in ss[qid].ledger then |ss[qid].ledger[CompetitionTeam].submitTimes| else 0) + 1
            && (r.0.Incorrect? ==>
                  r.0.wrongCount == r.1[qid].ledger[CompetitionTeam].wrongCount == PriorWrongCount(ss, qid) + 1)
            && (r.0.Correct? ==> r.0.wrongCount == PriorWrongCount(ss, qid) && r.1[qid].ledger[CompetitionTeam].isCompleted)
            && (r.0.Correct? && !TeamCompleted(ss, qid) ==>
                  r.1[qid].ledger[CompetitionTeam].finalScore == Some(r.0.score)
                  && r.1[qid].ledger[CompetitionTeam].firstCorrectTime == Some(now))
  {
  }

  /**
   * One submission: the gate, the ground-truth lookup, normalisation of the
   * first answer set by the question's task type, then scoring and
   * recording.
   */
  function HandleSubmit(answerSets: seq<seq<Answer>>, cfg: Config, ss: Sessions, gts: map<QuestionId, GroundTruth>,
                        now: real): (r: (Outcome, Sessions))
    requires forall q :: q in gts ==> ValidGroundTruth(gts[q])
    ensures !r.0.Scored() ==> r.1 == ss
    ensures r.0.Scored() ==> Gate(answerSets, cfg, ss, now).None? && cfg.activeQuestionId in gts
    ensures Gate(answerSets, cfg, ss, now).None? && cfg.activeQuestionId !in gts ==> r == (QuestionNotFound, ss)
  {
    match Gate(answerSets, cfg, ss, now)
    case Some(rejected) => (rejected, ss)
    case None =>
      var qid := cfg.activeQuestionId;
      if qid !in gts then (QuestionNotFound, ss)
      else
        match NormalizeFor(gts[qid].kind, answerSets[0], qid)
        case Failure(rejected) => (rejected, ss)
        case Success(sub) => ScoreAndRecord(ss, qid, sub, gts[qid], cfg.params, now)
  }

  /**
   * The submit path with the QA normaliser as app/normalizer.py writes it
   * (the answer dropped, see NormalizeQaAsWritten): a QA question that
   * expects an answer is answered Incorrect whenever it is scored at all,
   * one more wrong attempt than before, and the table records a wrong
   * attempt. The handler above uses the corrected normaliser instead.
   */
  lemma AsWrittenQaSubmitIncorrect(answers: seq<Answer>, ss: Sessions, qid: QuestionId, gt: GroundTruth,
                                   params: ScoringParams, now: real)
    requires qid in ss && ValidGroundTruth(gt) && gt.kind == QA && AnswerRequired(gt)
    requires NormalizeQaAsWritten(answers, qid).Success?
    ensures var r := ScoreAndRecord(ss, qid, NormalizeQaAsWritten(answers, qid).value, gt, params, now);
      r.0.Scored() ==>
        r.0.Incorrect? && r.0.wrongCount == PriorWrongCount(ss, qid) + 1
        && r.1 == RecordSubmission(ss, qid, CompetitionTeam, false, None, now).0
  {
    var elapsed := now - ss[qid].startTime;
    if TimeFactorDefined(elapsed, params.timeLimit) {
      AsWrittenQaNeverPassesAnswerGate(answers, qid, gt, elapsed, PriorWrongCount(ss, qid), params);
    }
  }

  /** A reply that does not come from scoring leaves the table as it was. */
  lemma SubmitUnscoredKeepsTable(answerSets: seq<seq<Answer>>, cfg: Config, ss: Sessions,
                                 gts: map<QuestionId, GroundTruth>, now: real)
    requires forall q :: q in gts ==> ValidGroundTruth(gts[q])
    ensures !HandleSubmit(answerSets, cfg, ss, gts, now).0.Scored() ==> HandleSubmit(answerSets, cfg, ss, gts, now).1 == ss
  {
    var qid := cfg.activeQuestionId;
    var r := HandleSubmit(answerSets, cfg, ss, gts, now);
    if Gate(answerSets, cfg, ss, now).None? && qid in gts {
      var normalized := NormalizeFor(gts[qid].kind, answerSets[0], qid);
      if normalized.Success? {
        assert qid in ss;
        var scored := ScoreAndRecord(ss, qid, normalized.value, gts[qid], cfg.params, now);
        assert r.0 == scored.0 && r.1 == scored.1;
      }
    }
  }

  /**
   * A reply that comes from scoring means the gate passed, the question has
   * ground truth and the payload normalised; the reply and the table are
   * then those of scoring and recording that submission.
   */
  lemma SubmitScoredOnlyAfterChecks(answerSets: seq<seq<Answer>>, cfg: Config, ss: Sessions,
                                    gts: map<QuestionId, GroundTruth>, now: real)
    requires forall q :: q in gts ==> ValidGroundTruth(gts[q])
    ensures HandleSubmit(answerSets, cfg, ss, gts, now).0.Scored() ==>
              var qid := cfg.activeQuestionId;
              Gate(answerSets, cfg, ss, now).None? && qid in ss && qid in gts
              && NormalizeFor(gts[qid].kind, answerSets[0], qid).Success?
              && HandleSubmit(answerSets, cfg, ss, gts, now)
                 == ScoreAndRecord(ss, qid, NormalizeFor(gts[qid].kind, answerSets[0], qid).value, gts[qid],
                                   cfg.params, now)
  {
    var qid := cfg.activeQuestionId;
    var r := HandleSubmit(answerSets, cfg, ss, gts, now);
    if Gate(answerSets, cfg, ss, now).Some? {
      assert !r.0.Scored();
    } else if qid in gts {
      var normalized := NormalizeFor(gts[qid].kind, answerSets[0], qid);
      if normalized.Success? {
        assert qid in ss;
      }
    }
  }

  /**
   * The checks run in order: a refusal by the gate is the reply, then a
   * question without ground truth is not found, then a payload the task
   * type's normaliser refuses is the reply; none of them records anything.
   */
  lemma SubmitRefusalsInOrder(answerSets: seq<seq<Answer>>, cfg: Config, ss: Sessions,
                              gts: map<QuestionId, GroundTruth>, now: real)
    requires forall q :: q in gts ==> ValidGroundTruth(gts[q])
    ensures Gate(answerSets, cfg, ss, now).Some? ==>
              HandleSubmit(answerSets, cfg, ss, gts, now) == (Gate(answerSets, cfg, ss, now).value, ss)
    ensures Gate(answerSets, cfg, ss, now).None? && cfg.activeQuestionId !in gts ==>
              HandleSubmit(answerSets, cfg, ss, gts, now) == (QuestionNotFound, ss)
    ensures Gate(answerSets, cfg, ss, now).None? && cfg.activeQuestionId in gts
            && NormalizeFor(gts[cfg.activeQuestionId].kind, answerSets[0], cfg.activeQuestionId).Failure? ==>
              HandleSubmit(answerSets, cfg, ss, gts, now)
              == (NormalizeFor(gts[cfg.activeQuestionId].kind, answerSets[0], cfg.activeQuestionId).error, ss)
  {
  }

  /** A question that is not accepting submissions is refused with its timing, and nothing is recorded. */
  lemma SubmitInactiveRefused(answerSets: seq<seq<Answer>>, cfg: Config, ss: Sessions,
                              gts: map<QuestionId, GroundTruth>, now: real)
    requires forall q :: q in gts ==> ValidGroundTruth(gts[q])
    requires |answerSets| > 0 && cfg.activeQuestionId != 0 && !IsQuestionActive(ss, cfg.activeQuestionId, now)
    ensures HandleSubmit(answerSets, cfg, ss, gts, now).1 == ss
    ensures cfg.activeQuestionId !in ss ==>
              HandleSubmit(answerSets, cfg, ss, gts, now).0 == TimeLimitExceeded(0.0, 300, 10)
    ensures cfg.activeQuestionId in ss ==>
              var s := ss[cfg.activeQuestionId];
              HandleSubmit(answerSets, cfg, ss, gts, now).0 == TimeLimitExceeded(now - s.startTime, s.timeLimit, s.bufferTime)
  {
  }

  /** A team that already completed gets its frozen score and completion time back, and nothing is recorded. */
  lemma SubmitAfterCompletion(answerSets: seq<seq<Answer>>, cfg: Config, ss: Sessions,
                              gts: map<QuestionId, GroundTruth>, now: real)
    requires WellFormed(ss)
    requires forall q :: q in gts ==> ValidGroundTruth(gts[q])
    requires |answerSets| > 0 && cfg.activeQuestionId != 0 && IsQuestionActive(ss, cfg.activeQuestionId, now)
    requires TeamCompleted(ss, cfg.activeQuestionId)
    ensures HandleSubmit(answerSets, cfg, ss, gts, now).1 == ss
    ensures var e := ss[cfg.activeQuestionId].ledger[CompetitionTeam];
            e.firstCorrectTime.Some?
            && HandleSubmit(answerSets, cfg, ss, gts, now).0
               == AlreadyCompleted(e.finalScore, e.firstCorrectTime.value - ss[cfg.activeQuestionId].startTime)
  {
    assert SessionWellFormed(cfg.activeQuestionId, ss[cfg.activeQuestionId]);
  }

  /** Every reply leaves the session table well formed. */
  lemma SubmitPreservesWellFormed(answerSets: seq<seq<Answer>>, cfg: Config, ss: Sessions,
                                  gts: map<QuestionId, GroundTruth>, now: real)
    requires WellFormed(ss)
    requires forall q :: q in gts ==> ValidGroundTruth(gts[q])
    ensures WellFormed(HandleSubmit(answerSets, cfg, ss, gts, now).1)
  {
    var r := HandleSubmit(answerSets, cfg, ss, gts, now);
    if r.0.Scored() {
      RecordPreservesWellFormed(ss, cfg.activeQuestionId, CompetitionTeam, r.0.Correct?,
                                if r.0.Correct? then Some(r.0.score) else None, now);
    }
  }

  /**
   * A correct submission leaves the team completed, holding this score and this
   * time, in a session whose start is unchanged.
   */
  lemma CorrectCompletesTeam(answerSets: seq<seq<Answer>>, cfg: Config, ss: Sessions,
                             gts: map<QuestionId, GroundTruth>, now: real)
    requires forall q :: q in gts ==> ValidGroundTruth(gts[q])
    requires HandleSubmit(answerSets, cfg, ss, gts, now).0.Correct?
    ensures var r := HandleSubmit(answerSets, cfg, ss, gts, now);
            var qid := cfg.activeQuestionId;
            qid != 0 && qid in ss && qid in r.1 && r.1[qid].startTime == ss[qid].startTime
            && TeamCompleted(r.1, qid)
            && r.1[qid].ledger[CompetitionTeam].finalScore == Some(r.0.score)
            && r.1[qid].ledger[CompetitionTeam].firstCorrectTime == Some(now)
  {
    var qid := cfg.activeQuestionId;
    SubmitScoredOnlyAfterChecks(answerSets, cfg, ss, gts, now);
    var sub := NormalizeFor(gts[qid].kind, answerSets[0], qid).value;
    ScoreAndRecordLedgerEffect(ss, qid, sub, gts[qid], cfg.params, now);
  }

  /** A completed team holding score `score` since time `at` gets exactly that back, and nothing is recorded. */
  lemma FrozenReply(later: seq<seq<Answer>>, cfg: Config, ss: Sessions, gts: map<QuestionId, GroundTruth>,
                    laterNow: real, score: real, at: real)
    requires forall q :: q in gts ==> ValidGroundTruth(gts[q])
    requires |later| > 0 && cfg.activeQuestionId != 0 && IsQuestionActive(ss, cfg.activeQuestionId, laterNow)
    requires TeamCompleted(ss, cfg.activeQuestionId)
    requires ss[cfg.activeQuestionId].ledger[CompetitionTeam].finalScore == Some(score)
    requires ss[cfg.activeQuestionId].ledger[CompetitionTeam].firstCorrectTime == Some(at)
    ensures var reply := HandleSubmit(later, cfg, ss, gts, laterNow).0;
            reply.AlreadyCompleted? && reply.finalScore == Some(score)
            && reply.completedAt == at - ss[cfg.activeQuestionId].startTime
    ensures HandleSubmit(later, cfg, ss, gts, laterNow).1 == ss
  {
  }

  /**
   * Once a submission is correct, any later submission to the same
   * question while it still accepts is answered with the frozen score and
   * the time of that first correct submission, and records nothing.
   */
  lemma CorrectThenFrozen(answerSets: seq<seq<Answer>>, cfg: Config, ss: Sessions,
                          gts: map<QuestionId, GroundTruth>, now: real,
                          later: seq<seq<Answer>>, laterNow: real)
    requires forall q :: q in gts ==> ValidGroundTruth(gts[q])
    requires HandleSubmit(answerSets, cfg, ss, gts, now).0.Correct?
    requires |later| > 0 && IsQuestionActive(HandleSubmit(answerSets, cfg, ss, gts, now).1, cfg.activeQuestionId, laterNow)
    ensures var r := HandleSubmit(answerSets, cfg, ss, gts, now);
            var reply := HandleSubmit(later, cfg, r.1, gts, laterNow).0;
            reply.AlreadyCompleted? && reply.finalScore == Some(r.0.score)
            && reply.completedAt == now - ss[cfg.activeQuestionId].startTime
    ensures var r := HandleSubmit(answerSets, cfg, ss, gts, now);
            HandleSubmit(later, cfg, r.1, gts, laterNow).1 == r.1
  {
    var r := HandleSubmit(answerSets, cfg, ss, gts, now);
    CorrectCompletesTeam(answerSets, cfg, ss, gts, now);
    FrozenReply(later, cfg, r.1, gts, laterNow, r.0.score, now);
  }
}
