/**
 * The current scoring engine (app/core/scoring.py): time factor,
 * correctness factor, the competition formula
 *   max(0, pBase + (pMax - pBase) * fT - k * pPenalty) * correctnessFactor
 * and the scoring pipeline with its scene/video and QA-answer gates.
 * Rounding of the reported figures is not modelled: every figure is exact.
 */
module Scoring {
  import opened Wrappers
  import opened Events
  import opened Models
  import opened Matching

  /** Tolerance for KIS and QA values, in milliseconds. */
  const ToleranceMs := 2500
  /** Tolerance for TR values, in frames. */
  const ToleranceFrames := 12

  /** The time factor divides by the time limit only when the submission came before it. */
  predicate TimeFactorDefined(tSubmit: real, tTask: real) {
    tTask != 0.0 || tSubmit >= tTask
  }

  /** fT: 1 at the start, falling linearly to 0 at the time limit, and 0 afterwards. */
  function TimeFactor(tSubmit: real, tTask: real): (f: real)
    requires TimeFactorDefined(tSubmit, tTask)
    ensures tSubmit >= tTask ==> f == 0.0
    ensures tSubmit < tTask ==> f == 1.0 - tSubmit / tTask
    ensures tTask > 0.0 && tSubmit >= 0.0 ==> 0.0 <= f <= 1.0
    ensures tTask > 0.0 && tSubmit <= 0.0 ==> f >= 1.0
  {
    if tSubmit >= tTask then 0.0 else 1.0 - tSubmit / tTask
  }

  /** A later submission never gets a larger time factor. */
  lemma TimeFactorNonIncreasing(t1: real, t2: real, tTask: real)
    requires tTask > 0.0 && t1 <= t2
    ensures TimeFactor(t1, tTask) >= TimeFactor(t2, tTask)
  {
    DivideMonotone(t1, t2, tTask);
    if t1 < tTask {
      DivideMonotone(t1, tTask, tTask);
    }
  }

  /** Dividing by a positive number keeps an inequality. */
  lemma DivideMonotone(x: real, y: real, d: real)
    requires d > 0.0 && x <= y
    ensures x / d <= y / d
  {
    var a, b := x / d, y / d;
    assert a * d == x && b * d == y;
    assert (b - a) * d == y - x;
    ProductSign(b - a, d);
  }

  /** A product that is non-negative with a positive right factor has a non-negative left factor. */
  lemma ProductSign(x: real, y: real)
    requires y > 0.0 && x * y >= 0.0
    ensures x >= 0.0
  {
  }

  /** Multiplying by a non-negative factor keeps an inequality. */
  lemma ScaleMonotone(a: real, x: real, y: real)
    requires a >= 0.0 && x <= y
    ensures a * x <= a * y
    ensures x * a <= y * a
  {
    assert a * y - a * x == a * (y - x);
    assert x * a == a * x && y * a == a * y;
  }

  /** The values the source's tests and documentation give for a 300-second limit. */
  lemma TimeFactorExamples()
    ensures TimeFactor(0.0, 300.0) == 1.0
    ensures TimeFactor(150.0, 300.0) == 0.5
    ensures TimeFactor(300.0, 300.0) == 0.0
    ensures TimeFactor(350.0, 300.0) == 0.0
    ensures TimeFactor(360.0, 300.0) == 0.0
  {
  }

  /** `matched / total * 100`, or 0 when there are no events. */
  function Percentage(matched: nat, total: nat): (p: real)
    ensures total == 0 ==> p == 0.0
    ensures total > 0 ==> (p >= 100.0 <==> matched >= total)
    ensures total > 0 ==> (p == 100.0 <==> matched == total)
    ensures total > 0 ==> (p >= 50.0 <==> 2 * matched >= total)
  {
    if total == 0 then 0.0
    else
      PercentageThresholds(matched, total);
      matched as real / total as real * 100.0
  }

  /** Where a non-empty percentage sits against 100 and 50. */
  lemma PercentageThresholds(matched: nat, total: nat)
    requires total > 0
    ensures matched as real / total as real * 100.0 >= 100.0 <==> matched >= total
    ensures matched as real / total as real * 100.0 == 100.0 <==> matched == total
    ensures matched as real / total as real * 100.0 >= 50.0 <==> 2 * matched >= total
  {
    QuotientCompare(matched as real, total as real, 1.0);
    QuotientCompare(matched as real, total as real, 0.5);
  }

  /** Comparing a quotient with a constant is comparing the dividend with the scaled constant. */
  lemma QuotientCompare(x: real, d: real, c: real)
    requires d > 0.0
    ensures x / d >= c <==> x >= c * d
    ensures x / d == c <==> x == c * d
  {
    var q := x / d;
    assert q * d == x;
    assert (q - c) * d == x - c * d;
    SignOfProduct(q - c, d);
  }

  /** With a positive right factor, a product has the sign of its left factor. */
  lemma SignOfProduct(a: real, d: real)
    requires d > 0.0
    ensures a * d >= 0.0 <==> a >= 0.0
    ensures a * d == 0.0 <==> a == 0.0
  {
    if a >= 0.0 {
      ScaleMonotone(d, 0.0, a);
    } else {
      ScaleMonotone(d, a, 0.0);
      assert a * d != 0.0;
    }
  }

  /**
   * KIS and QA are all-or-nothing on completeness and then weighted by
   * quality; TR pays the full quality at 100%, half of it from 50% and
   * nothing below.
   */
  function CorrectnessFactor(matched: nat, total: nat, kind: TaskType, avgQuality: real): (cf: real)
    ensures total == 0 || kind == Unknown ==> cf == 0.0
    ensures total > 0 && (kind == KIS || kind == QA) ==>
      cf == (if matched == total then avgQuality else 0.0)
    ensures total > 0 && kind == TR && matched >= total ==> cf == avgQuality
    ensures total > 0 && kind == TR && matched < total && 2 * matched >= total ==> cf == avgQuality * 0.5
    ensures total > 0 && kind == TR && 2 * matched < total ==> cf == 0.0
  {
    if total == 0 then 0.0
    else
      var percentage := Percentage(matched, total);
      match kind
      case KIS => if matched == total then avgQuality else 0.0
      case QA => if matched == total then avgQuality else 0.0
      case TR =>
        if percentage >= 100.0 then avgQuality
        else if percentage >= 50.0 then avgQuality * 0.5
        else 0.0
      case Unknown => 0.0
  }

  /** With a quality in [0, 1], the correctness factor is in [0, 1] too. */
  lemma CorrectnessFactorBounds(matched: nat, total: nat, kind: TaskType, avgQuality: real)
    requires 0.0 <= avgQuality <= 1.0
    ensures 0.0 <= CorrectnessFactor(matched, total, kind, avgQuality) <= 1.0
  {
  }

  /** KIS with one of two events matched at perfect quality earns nothing; TR earns half. */
  lemma CorrectnessFactorExamples()
    ensures CorrectnessFactor(1, 2, KIS, 1.0) == 0.0
    ensures CorrectnessFactor(1, 2, TR, 1.0) == 0.5
    ensures CorrectnessFactor(2, 2, TR, 0.75) == 0.75
  {
  }

  /** Why a scoring run ended: evaluated, or stopped by one of the gates. */
  datatype Verdict = Evaluated | WrongVideo | MissingAnswer | WrongAnswer

  /** The figures the engine reports for one scoring run. */
  datatype ScoreResult = ScoreResult(
    score: real,
    correctnessFactor: real,
    matchQuality: real,
    timeFactor: real,
    penalty: real,
    percentage: real,
    matched: nat,
    total: nat,
    verdict: Verdict)

  /** pBase + (pMax - pBase) * fT */
  function BaseScore(params: ScoringParams, fT: real): real {
    params.pBase + (params.pMax - params.pBase) * fT
  }

  /** max(0, base - k * pPenalty) * correctnessFactor: the formula both scoring revisions share. */
  function CompetitionScore(params: ScoringParams, fT: real, k: nat, cf: real): (s: real)
    ensures cf >= 0.0 ==> s >= 0.0
    ensures cf == 0.0 ==> s == 0.0
    ensures cf > 0.0 ==> (s == 0.0 <==> BaseScore(params, fT) <= k as real * params.pPenalty)
  {
    Max0(BaseScore(params, fT) - k as real * params.pPenalty) * cf
  }

  /** The competition formula applied to a match outcome. */
  function FinalScore(matched: nat, total: nat, kind: TaskType, tSubmit: real, k: nat,
                      params: ScoringParams, avgQuality: real): (r: ScoreResult)
    requires TimeFactorDefined(tSubmit, params.timeLimit)
    ensures r.verdict == Evaluated && r.matched == matched && r.total == total
    ensures r.timeFactor == TimeFactor(tSubmit, params.timeLimit)
    ensures r.correctnessFactor == CorrectnessFactor(matched, total, kind, avgQuality)
    ensures r.penalty == k as real * params.pPenalty
    ensures r.percentage == Percentage(matched, total)
    ensures r.score == CompetitionScore(params, r.timeFactor, k, r.correctnessFactor)
    ensures r.correctnessFactor >= 0.0 ==> r.score >= 0.0
    ensures r.correctnessFactor == 0.0 ==> r.score == 0.0
  {
    var fT := TimeFactor(tSubmit, params.timeLimit);
    var cf := CorrectnessFactor(matched, total, kind, avgQuality);
    ScoreResult(CompetitionScore(params, fT, k, cf), cf, avgQuality, fT, k as real * params.pPenalty,
                Percentage(matched, total), matched, total, Evaluated)
  }

  /**
   * The score never exceeds pMax when the parameters are sensible and the
   * submission came after the start.
   */
  lemma FinalScoreAtMostPMax(matched: nat, total: nat, kind: TaskType, tSubmit: real, k: nat,
                             params: ScoringParams, avgQuality: real)
    requires params.timeLimit > 0.0 && tSubmit >= 0.0
    requires params.pBase <= params.pMax && 0.0 <= params.pMax && params.pPenalty >= 0.0
    requires 0.0 <= avgQuality <= 1.0
    ensures 0.0 <= FinalScore(matched, total, kind, tSubmit, k, params, avgQuality).score <= params.pMax
  {
    CorrectnessFactorBounds(matched, total, kind, avgQuality);
    CompetitionScoreBounded(params, TimeFactor(tSubmit, params.timeLimit), k,
                            CorrectnessFactor(matched, total, kind, avgQuality));
  }

  /** The formula stays in [0, pMax] for a time factor and a correctness factor in [0, 1]. */
  lemma CompetitionScoreBounded(params: ScoringParams, fT: real, k: nat, cf: real)
    requires 0.0 <= fT <= 1.0 && 0.0 <= cf <= 1.0
    requires params.pBase <= params.pMax && 0.0 <= params.pMax && params.pPenalty >= 0.0
    ensures 0.0 <= CompetitionScore(params, fT, k, cf) <= params.pMax
  {
    BaseScoreMonotone(params, fT, 1.0);
    PenaltyMonotone(params.pPenalty, 0, k);
    var before := Max0(BaseScore(params, fT) - k as real * params.pPenalty);
    assert 0.0 <= before <= params.pMax;
    FractionOfBounded(before, cf, params.pMax);
  }

  /** A fraction in [0, 1] of a value in [0, m] stays in [0, m]. */
  lemma FractionOfBounded(x: real, f: real, m: real)
    requires 0.0 <= x <= m && 0.0 <= f <= 1.0
    ensures 0.0 <= x * f <= m
  {
    ScaleMonotone(x, f, 1.0);
    ScaleMonotone(x, 0.0, f);
    assert x * 1.0 == x;
    assert x * f <= x;
  }

  /** More earlier wrong attempts never raise the formula's value. */
  lemma CompetitionNonIncreasingInWrongCount(params: ScoringParams, fT: real, k1: nat, k2: nat, cf: real)
    requires k1 <= k2 && params.pPenalty >= 0.0 && cf >= 0.0
    ensures CompetitionScore(params, fT, k1, cf) >= CompetitionScore(params, fT, k2, cf)
  {
    PenaltyMonotone(params.pPenalty, k1, k2);
    var base := BaseScore(params, fT);
    ClampedScaleMonotone(base - k2 as real * params.pPenalty, base - k1 as real * params.pPenalty, cf,
                         CompetitionScore(params, fT, k2, cf), CompetitionScore(params, fT, k1, cf));
  }

  /** Clamping at zero and then scaling by a non-negative factor keeps an inequality. */
  lemma ClampedScaleMonotone(x: real, y: real, cf: real, sx: real, sy: real)
    requires x <= y && cf >= 0.0
    requires sx == Max0(x) * cf && sy == Max0(y) * cf
    ensures sx <= sy
  {
    Max0Monotone(x, y);
    ScaleMonotone(cf, Max0(x), Max0(y));
  }

  /** More wrong attempts never cost less penalty. */
  lemma PenaltyMonotone(p: real, k1: nat, k2: nat)
    requires k1 <= k2 && p >= 0.0
    ensures k1 as real * p <= k2 as real * p
  {
    ScaleMonotone(p, k1 as real, k2 as real);
  }

  /** Clamping at zero keeps an inequality. */
  lemma Max0Monotone(x: real, y: real)
    requires x <= y
    ensures Max0(x) <= Max0(y)
  {
  }

  /** A larger time factor never lowers the formula's value when pMax is at least pBase. */
  lemma CompetitionNonDecreasingInTimeFactor(params: ScoringParams, f1: real, f2: real, k: nat, cf: real)
    requires f1 <= f2 && params.pBase <= params.pMax && cf >= 0.0
    ensures CompetitionScore(params, f1, k, cf) <= CompetitionScore(params, f2, k, cf)
  {
    BaseScoreMonotone(params, f1, f2);
    var pen := k as real * params.pPenalty;
    ClampedScaleMonotone(BaseScore(params, f1) - pen, BaseScore(params, f2) - pen, cf,
                         CompetitionScore(params, f1, k, cf), CompetitionScore(params, f2, k, cf));
  }

  /** A larger time factor never lowers the base score when pMax is at least pBase. */
  lemma BaseScoreMonotone(params: ScoringParams, f1: real, f2: real)
    requires f1 <= f2 && params.pBase <= params.pMax
    ensures BaseScore(params, f1) <= BaseScore(params, f2)
  {
    ScaleMonotone(params.pMax - params.pBase, f1, f2);
  }

  /** Each earlier wrong attempt can only lower the score. */
  lemma FinalScoreNonIncreasingInWrongCount(matched: nat, total: nat, kind: TaskType, tSubmit: real,
                                            k1: nat, k2: nat, params: ScoringParams, avgQuality: real)
    requires TimeFactorDefined(tSubmit, params.timeLimit)
    requires k1 <= k2 && params.pPenalty >= 0.0 && avgQuality >= 0.0
    ensures FinalScore(matched, total, kind, tSubmit, k1, params, avgQuality).score
         >= FinalScore(matched, total, kind, tSubmit, k2, params, avgQuality).score
  {
    CorrectnessFactorNonNegative(matched, total, kind, avgQuality);
    CompetitionNonIncreasingInWrongCount(params, TimeFactor(tSubmit, params.timeLimit), k1, k2,
                                         CorrectnessFactor(matched, total, kind, avgQuality));
  }

  /** A later submission never scores more, when pMax is at least pBase. */
  lemma FinalScoreNonIncreasingInTime(matched: nat, total: nat, kind: TaskType, t1: real, t2: real,
                                      k: nat, params: ScoringParams, avgQuality: real)
    requires params.timeLimit > 0.0 && t1 <= t2
    requires params.pBase <= params.pMax && avgQuality >= 0.0
    ensures FinalScore(matched, total, kind, t1, k, params, avgQuality).score
         >= FinalScore(matched, total, kind, t2, k, params, avgQuality).score
  {
    CorrectnessFactorNonNegative(matched, total, kind, avgQuality);
    TimeFactorNonIncreasing(t1, t2, params.timeLimit);
    CompetitionNonDecreasingInTimeFactor(params, TimeFactor(t2, params.timeLimit), TimeFactor(t1, params.timeLimit), k,
                                         CorrectnessFactor(matched, total, kind, avgQuality));
  }

  lemma CorrectnessFactorNonNegative(matched: nat, total: nat, kind: TaskType, avgQuality: real)
    requires avgQuality >= 0.0
    ensures CorrectnessFactor(matched, total, kind, avgQuality) >= 0.0
  {
  }

  /** The worked example: two of two KIS events, at once, after two wrong attempts, scores 80. */
  lemma FinalScoreExample()
    ensures FinalScore(2, 2, KIS, 0.0, 2, DefaultParams, 1.0).score == 80.0
    ensures FinalScore(2, 2, KIS, 0.0, 15, DefaultParams, 1.0).score == 0.0
    ensures FinalScore(1, 2, KIS, 0.0, 0, DefaultParams, 1.0).score == 0.0
  {
  }

  /** The tolerance the pipeline uses for a task type. */
  function Tolerance(kind: TaskType): (tol: int)
    ensures tol > 0
    ensures kind == TR <==> tol == ToleranceFrames
  {
    if kind == TR then ToleranceFrames else ToleranceMs
  }

  /** The ground truth demands an answer text when it carries a non-empty one. */
  predicate AnswerRequired(gt: GroundTruth) {
    gt.answer.Some? && gt.answer.value != ""
  }

  /** The submission carries a non-empty answer text. */
  predicate AnswerGiven(sub: Submission) {
    sub.answer.Some? && sub.answer.value != ""
  }

  /** Scene and video agree and, for a QA question with an expected answer, the answers agree exactly. */
  predicate PassesGates(sub: Submission, gt: GroundTruth) {
    && sub.sceneId == gt.sceneId
    && sub.videoId == gt.videoId
    && (gt.kind == QA && AnswerRequired(gt) ==> AnswerGiven(sub) && sub.answer.value == gt.answer.value)
  }

  /** The zero result a gate produces: no matching was attempted. */
  function Rejection(gt: GroundTruth, tSubmit: real, k: nat, params: ScoringParams, verdict: Verdict): ScoreResult
    requires TimeFactorDefined(tSubmit, params.timeLimit)
  {
    ScoreResult(0.0, 0.0, 0.0, TimeFactor(tSubmit, params.timeLimit), k as real * params.pPenalty,
                0.0, 0, |gt.points| / 2, verdict)
  }

  /** The matcher run the pipeline performs once both gates are passed. */
  function MatchAgainst(sub: Submission, gt: GroundTruth): (m: MatchOutcome)
    requires ValidGroundTruth(gt)
    ensures m.total == |gt.points| / 2 && m.matched <= m.total
    ensures 0.0 <= m.avgQuality <= 1.0
  {
    var events := PointsToEvents(gt.points);
    AscendingGivesOrderedEvents(gt.points);
    ProperEventsDefined(sub.values, events, Tolerance(gt.kind));
    CheckMatchWithTolerance(sub.values, events, Tolerance(gt.kind))
  }

  /**
   * The scoring pipeline: a wrong scene or video scores 0; so does a QA
   * submission without the exact expected answer; otherwise the values are
   * matched with the tolerance of the ground truth's task type and scored.
   */
  function ScoreSubmission(sub: Submission, gt: GroundTruth, tSubmit: real, k: nat,
                           params: ScoringParams): (r: ScoreResult)
    requires ValidGroundTruth(gt)
    requires TimeFactorDefined(tSubmit, params.timeLimit)
    ensures r.total == |gt.points| / 2
    ensures r.score >= 0.0
    ensures r.timeFactor == TimeFactor(tSubmit, params.timeLimit)
    ensures r.penalty == k as real * params.pPenalty
    ensures (sub.sceneId != gt.sceneId || sub.videoId != gt.videoId) ==>
      r.verdict == WrongVideo && r.score == 0.0 && r.correctnessFactor == 0.0 && r.matched == 0
    ensures sub.sceneId == gt.sceneId && sub.videoId == gt.videoId && gt.kind == QA && AnswerRequired(gt) ==>
      (!AnswerGiven(sub) ==> r.verdict == MissingAnswer && r.score == 0.0 && r.correctnessFactor == 0.0) &&
      (AnswerGiven(sub) && sub.answer.value != gt.answer.value ==>
         r.verdict == WrongAnswer && r.score == 0.0 && r.correctnessFactor == 0.0)
    ensures r.verdict == Evaluated <==> PassesGates(sub, gt)
    ensures PassesGates(sub, gt) ==>
      var m := MatchAgainst(sub, gt);
      r == FinalScore(m.matched, m.total, gt.kind, tSubmit, k, params, m.avgQuality)
    ensures r.correctnessFactor > 0.0 ==> PassesGates(sub, gt) && r.matched > 0
  {
    if sub.sceneId != gt.sceneId || sub.videoId != gt.videoId then
      Rejection(gt, tSubmit, k, params, WrongVideo)
    else if gt.kind == QA && AnswerRequired(gt) && !AnswerGiven(sub) then
      Rejection(gt, tSubmit, k, params, MissingAnswer)
    else if gt.kind == QA && AnswerRequired(gt) && sub.answer.value != gt.answer.value then
      Rejection(gt, tSubmit, k, params, WrongAnswer)
    else
      var m := MatchAgainst(sub, gt);
      CorrectnessFactorNonNegative(m.matched, m.total, gt.kind, m.avgQuality);
      FinalScore(m.matched, m.total, gt.kind, tSubmit, k, params, m.avgQuality)
  }
}
