/**
 * Records shared by the scoring engine, the normalisers and the session
 * manager. The source's `app/models.py` predates several fields; these
 * records are rebuilt from how the scoring engine and the session manager
 * use them.
 */
module Models {
  import opened Wrappers
  import opened Events

  type QuestionId = int

  /** `max(0, x)`, the clamp both the scoring formula and the remaining time use. */
  function Max0(x: real): real {
    if x < 0.0 then 0.0 else x
  }

  /** The task type tag of a question. Any other tag read from the ground-truth file is `Unknown`. */
  datatype TaskType = KIS | QA | TR | Unknown

  /**
   * A question's ground truth: task type, scene and video ids, the flat point
   * list and, for QA, the expected answer text.
   */
  datatype GroundTruth = GroundTruth(
    questionId: QuestionId,
    kind: TaskType,
    sceneId: string,
    videoId: string,
    points: seq<int>,
    answer: Option<string>)

  /** What the ground-truth loader guarantees: an even, ascending point list. */
  predicate ValidGroundTruth(gt: GroundTruth) {
    |gt.points| % 2 == 0 && Ascending(gt.points)
  }

  /** The events of a ground truth. */
  function GroundTruthEvents(gt: GroundTruth): (events: seq<Event>)
    requires |gt.points| % 2 == 0
    ensures |events| == |gt.points| / 2
  {
    PointsToEvents(gt.points)
  }

  /**
   * A submission after normalisation: values are milliseconds for KIS/QA and
   * frame numbers for TR.
   */
  datatype Submission = Submission(
    questionId: QuestionId,
    kind: TaskType,
    sceneId: string,
    videoId: string,
    values: seq<int>,
    answer: Option<string>)

  /** Competition scoring parameters; times are in seconds. */
  datatype ScoringParams = ScoringParams(
    pMax: real,
    pBase: real,
    pPenalty: real,
    timeLimit: real,
    bufferTime: real)

  /** The defaults the source's tests rely on. */
  const DefaultParams := ScoringParams(100.0, 50.0, 10.0, 300.0, 10.0)
}
