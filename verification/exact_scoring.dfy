/**
 * The earlier exact-match scoring revision (app/scoring.py): a value
 * matches an event only when it equals the event's start or end, and the
 * correctness factor is one of 0, 0.5 and 1. It has no scene/video or
 * answer gate. The time factor and the competition formula are the same as
 * in the current engine and are shared with it.
 */
module ExactScoring {
  import opened Events
  import opened Models
  import opened Scoring
  import opened Sets

  /** A value hits an event when it equals the event's start or its end. */
  predicate Hits(v: int, ev: Event) {
    v == ev.start || v == ev.end
  }

  /** The first event a value hits, or -1. */
  function FirstHit(v: int, events: seq<Event>): (idx: int)
    ensures -1 <= idx < |events|
    ensures idx >= 0 ==> Hits(v, events[idx])
    ensures idx >= 0 ==> forall j :: 0 <= j < idx ==> !Hits(v, events[j])
    ensures idx == -1 ==> forall j :: 0 <= j < |events| ==> !Hits(v, events[j])
  {
    if |events| == 0 then -1
    else if Hits(v, events[0]) then 0
    else
      var rest := FirstHit(v, events[1..]);
      if rest == -1 then -1 else rest + 1
  }

  /** The set of event indices the source accumulates, value by value. */
  function MatchedEvents(values: seq<int>, events: seq<Event>): (s: set<int>)
    ensures forall j :: j in s ==> 0 <= j < |events|
  {
    if |values| == 0 then {}
    else
      var prev := MatchedEvents(values[..|values| - 1], events);
      var idx := FirstHit(values[|values| - 1], events);
      if idx >= 0 then prev + {idx} else prev
  }

  /** An event is matched exactly when it is the first event some value hits. */
  lemma {:induction false} MatchedEventsMembership(values: seq<int>, events: seq<Event>)
    ensures forall j :: j in MatchedEvents(values, events) <==>
      exists i :: 0 <= i < |values| && FirstHit(values[i], events) == j && j >= 0
  {
    if |values| > 0 {
      var init := values[..|values| - 1];
      MatchedEventsMembership(init, events);
      forall j | j in MatchedEvents(values, events)
        ensures exists i :: 0 <= i < |values| && FirstHit(values[i], events) == j && j >= 0
      {
        if j in MatchedEvents(init, events) {
          var i :| 0 <= i < |init| && FirstHit(init[i], events) == j && j >= 0;
          assert init[i] == values[i];
        } else {
          assert FirstHit(values[|values| - 1], events) == j;
        }
      }
      forall j | exists i :: 0 <= i < |values| && FirstHit(values[i], events) == j && j >= 0
        ensures j in MatchedEvents(values, events)
      {
        var i :| 0 <= i < |values| && FirstHit(values[i], events) == j && j >= 0;
        if i < |init| {
          assert init[i] == values[i];
        }
      }
    }
  }

  /** (matched events, total events) of the exact matcher. */
  datatype ExactMatch = ExactMatch(matched: nat, total: nat)

  /** Matched events and total events; several values hitting one event count it once. */
  function CheckExactMatch(values: seq<int>, events: seq<Event>): (r: ExactMatch)
    ensures r.total == |events|
    ensures r.matched == |MatchedEvents(values, events)|
    ensures r.matched <= r.total
  {
    IndexSetBounded(MatchedEvents(values, events), |events|);
    ExactMatch(|MatchedEvents(values, events)|, |events|)
  }

  /** The matcher's cases from the source's tests. */
  lemma CheckExactMatchExamples()
    ensures CheckExactMatch([4890, 5000], [Event(4890, 5000)]) == ExactMatch(1, 1)
    ensures CheckExactMatch([4890, 5000], [Event(4890, 5000), Event(5001, 5020)]) == ExactMatch(1, 2)
    ensures CheckExactMatch([1000, 2000], [Event(4890, 5000)]) == ExactMatch(0, 1)
  {
    var one := [Event(4890, 5000)];
    var two := [Event(4890, 5000), Event(5001, 5020)];
    assert FirstHit(4890, one) == 0 && FirstHit(5000, one) == 0;
    assert [4890, 5000][..1] == [4890];
    assert MatchedEvents([4890, 5000], one) == {0};
    assert FirstHit(4890, two) == 0 && FirstHit(5000, two) == 0;
    assert MatchedEvents([4890, 5000], two) == {0};
    assert FirstHit(1000, one) == -1 && FirstHit(2000, one) == -1;
    assert [1000, 2000][..1] == [1000];
    assert MatchedEvents([1000, 2000], one) == {};
  }

  /**
   * When the points are strictly ascending, submitting every ground-truth
   * point matches every event.
   */
  lemma AllPointsMatchAllEvents(points: seq<int>)
    requires |points| % 2 == 0 && StrictlyAscending(points)
    ensures CheckExactMatch(points, PointsToEvents(points)).matched == |points| / 2
  {
    var events := PointsToEvents(points);
    MatchedEventsMembership(points, events);
    forall j | 0 <= j < |events|
      ensures j in MatchedEvents(points, events)
    {
      assert events[j] == Event(points[2 * j], points[2 * j + 1]);
      forall j' | 0 <= j' < j
        ensures !Hits(points[2 * j], events[j'])
      {
        assert events[j'] == Event(points[2 * j'], points[2 * j' + 1]);
      }
      assert FirstHit(points[2 * j], events) == j;
    }
    assert MatchedEvents(points, events) == Range(|events|);
  }

  /** KIS/QA: 1 at 100% and 0 otherwise; TR: 1 at 100%, 0.5 from 50%, 0 below. */
  function CorrectnessFactorExact(matched: nat, total: nat, kind: TaskType): (cf: real)
    ensures cf == 0.0 || cf == 0.5 || cf == 1.0
    ensures total == 0 || kind == Unknown ==> cf == 0.0
    ensures total > 0 && (kind == KIS || kind == QA) ==> (cf == 1.0 <==> matched == total)
    ensures total > 0 && (kind == KIS || kind == QA) ==> cf != 0.5
    ensures total > 0 && kind == TR ==> (cf == 1.0 <==> matched == total)
    ensures total > 0 && kind == TR && matched != total ==> (cf == 0.5 <==> 2 * matched >= total)
  {
    if total == 0 then 0.0
    else
      var percentage := Percentage(matched, total);
      match kind
      case KIS => if percentage == 100.0 then 1.0 else 0.0
      case QA => if percentage == 100.0 then 1.0 else 0.0
      case TR =>
        if percentage == 100.0 then 1.0
        else if percentage >= 50.0 then 0.5
        else 0.0
      case Unknown => 0.0
  }

  /** The factor's cases from the source's tests. */
  lemma CorrectnessFactorExactExamples()
    ensures CorrectnessFactorExact(2, 2, KIS) == 1.0 && CorrectnessFactorExact(1, 2, KIS) == 0.0
    ensures CorrectnessFactorExact(1, 1, QA) == 1.0 && CorrectnessFactorExact(1, 2, QA) == 0.0
    ensures CorrectnessFactorExact(2, 2, TR) == 1.0 && CorrectnessFactorExact(1, 2, TR) == 0.5
    ensures CorrectnessFactorExact(3, 4, TR) == 0.5 && CorrectnessFactorExact(1, 3, TR) == 0.0
  {
  }

  /** The figures this revision reports. */
  datatype ExactScoreResult = ExactScoreResult(
    score: real,
    correctnessFactor: real,
    timeFactor: real,
    penalty: real,
    percentage: real,
    matched: nat,
    total: nat)

  /** The competition formula with the exact-match correctness factor. */
  function FinalScoreExact(matched: nat, total: nat, kind: TaskType, tSubmit: real, k: nat,
                           params: ScoringParams): (r: ExactScoreResult)
    requires TimeFactorDefined(tSubmit, params.timeLimit)
    ensures r.correctnessFactor == CorrectnessFactorExact(matched, total, kind)
    ensures r.timeFactor == TimeFactor(tSubmit, params.timeLimit)
    ensures r.penalty == k as real * params.pPenalty
    ensures r.matched == matched && r.total == total
    ensures r.score >= 0.0
    ensures r.correctnessFactor == 0.0 ==> r.score == 0.0
    ensures r.score == CompetitionScore(params, r.timeFactor, k, r.correctnessFactor)
  {
    var fT := TimeFactor(tSubmit, params.timeLimit);
    var cf := CorrectnessFactorExact(matched, total, kind);
    ExactScoreResult(CompetitionScore(params, fT, k, cf), cf, fT, k as real * params.pPenalty,
                     Percentage(matched, total), matched, total)
  }

  /** The full-formula cases from the source's tests, with pMax 100, pBase 50, pPenalty 10 and a 300 s limit. */
  lemma FinalScoreExactExamples()
    ensures FinalScoreExact(2, 2, KIS, 0.0, 0, DefaultParams).score == 100.0
    ensures FinalScoreExact(2, 2, KIS, 0.0, 2, DefaultParams).score == 80.0
    ensures FinalScoreExact(2, 2, KIS, 150.0, 0, DefaultParams).score == 75.0
    ensures FinalScoreExact(1, 2, TR, 0.0, 0, DefaultParams).score == 50.0
    ensures FinalScoreExact(2, 2, KIS, 150.0, 1, DefaultParams).score == 65.0
    ensures FinalScoreExact(1, 2, KIS, 0.0, 0, DefaultParams).score == 0.0
    ensures FinalScoreExact(2, 2, KIS, 0.0, 15, DefaultParams).score == 0.0
    ensures FinalScoreExact(2, 2, KIS, 300.0, 0, DefaultParams).score == 50.0
  {
  }

  /** Partial TR credit with time decay and one wrong attempt: (50 + 50 * 2/3 - 10) * 0.5. */
  lemma FinalScoreExactPartialExample()
    ensures FinalScoreExact(2, 3, TR, 100.0, 1, DefaultParams).score == 110.0 / 3.0
  {
    assert TimeFactor(100.0, 300.0) == 2.0 / 3.0;
    assert CorrectnessFactorExact(2, 3, TR) == 0.5;
  }

  /**
   * Pair the points, match exactly, apply the formula; scene, video and
   * answer text play no part.
   */
  function ScoreSubmissionExact(sub: Submission, gt: GroundTruth, tSubmit: real, k: nat,
                                params: ScoringParams): (r: ExactScoreResult)
    requires |gt.points| % 2 == 0
    requires TimeFactorDefined(tSubmit, params.timeLimit)
    ensures r.total == |gt.points| / 2
    ensures r.matched == |MatchedEvents(sub.values, PointsToEvents(gt.points))|
    ensures r == FinalScoreExact(r.matched, r.total, gt.kind, tSubmit, k, params)
  {
    var m := CheckExactMatch(sub.values, PointsToEvents(gt.points));
    FinalScoreExact(m.matched, m.total, gt.kind, tSubmit, k, params)
  }

  /** This revision ignores the scene, the video and the answer text of a submission. */
  lemma ExactScoringIgnoresIdentity(sub: Submission, gt: GroundTruth, tSubmit: real, k: nat,
                                    params: ScoringParams, sceneId: string, videoId: string)
    requires |gt.points| % 2 == 0
    requires TimeFactorDefined(tSubmit, params.timeLimit)
    ensures ScoreSubmissionExact(sub.(sceneId := sceneId, videoId := videoId, answer := Wrappers.None), gt, tSubmit, k, params)
         == ScoreSubmissionExact(sub, gt, tSubmit, k, params)
  {
  }
}
