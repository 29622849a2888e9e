/**
 * The oldest scoring revision (app/scoring_old.py): the i-th submitted
 * value is scored against the i-th ground-truth event by a linear decay
 * from the event's midpoint, inside a window widened by a frame tolerance,
 * and the per-event scores are aggregated by mean, sum or minimum.
 */
module LegacyScoring {
  import opened Events
  import opened Models
  import opened Matching
  import opened Scoring

  /** The scoring part of the legacy configuration record. */
  datatype Config = Config(
    fps: real,
    maxScore: real,
    frameTolerance: real,
    decayPerFrame: real,
    aggregation: string)

  /** The record's defaults: 25 fps, 100 points, 12 frames, 1 point per frame, mean. */
  const DefaultConfig := Config(25.0, 100.0, 12.0, 1.0, "mean")

  /**
   * The decay rule on real coordinates in frames: zero outside
   * [lo - tol, hi + tol], otherwise the maximum score less `decay` per frame
   * of distance from the midpoint, floored at zero.
   */
  function DecayScore(x: real, lo: real, hi: real, tol: real, cfg: Config): (r: real)
    ensures r >= 0.0
    ensures x < lo - tol || x > hi + tol ==> r == 0.0
    ensures cfg.decayPerFrame >= 0.0 ==> r <= Max0(cfg.maxScore)
  {
    if x < lo - tol || x > hi + tol then 0.0
    else
      var dist := Abs(x - (lo + hi) / 2.0);
      assert cfg.decayPerFrame >= 0.0 ==> dist * cfg.decayPerFrame >= 0.0 by {
        if cfg.decayPerFrame >= 0.0 {
          ScaleMonotone(cfg.decayPerFrame, 0.0, dist);
        }
      }
      Max0(cfg.maxScore - dist * cfg.decayPerFrame)
  }

  /** Inside the window, a value closer to the midpoint never scores less. */
  lemma DecayCloserScoresHigher(x1: real, x2: real, lo: real, hi: real, tol: real, cfg: Config)
    requires cfg.decayPerFrame >= 0.0
    requires lo - tol <= x1 <= hi + tol && lo - tol <= x2 <= hi + tol
    requires Abs(x1 - (lo + hi) / 2.0) <= Abs(x2 - (lo + hi) / 2.0)
    ensures DecayScore(x1, lo, hi, tol, cfg) >= DecayScore(x2, lo, hi, tol, cfg)
  {
    ScaleMonotone(cfg.decayPerFrame, Abs(x1 - (lo + hi) / 2.0), Abs(x2 - (lo + hi) / 2.0));
    assert Abs(x1 - (lo + hi) / 2.0) * cfg.decayPerFrame <= Abs(x2 - (lo + hi) / 2.0) * cfg.decayPerFrame;
  }

  /** At the midpoint of a proper interval with a non-negative tolerance, the score is the full maximum. */
  lemma DecayPeaksAtMidpoint(lo: real, hi: real, tol: real, cfg: Config)
    requires lo <= hi && tol >= 0.0
    ensures DecayScore((lo + hi) / 2.0, lo, hi, tol, cfg) == Max0(cfg.maxScore)
  {
    assert Abs((lo + hi) / 2.0 - (lo + hi) / 2.0) == 0.0;
  }

  /** TR: the decay rule on frame numbers, with the frame tolerance used directly. */
  function ScoreEventFrame(v: int, start: int, end: int, cfg: Config): (r: real)
    ensures r >= 0.0
    ensures (v as real) < start as real - cfg.frameTolerance || (v as real) > end as real + cfg.frameTolerance ==> r == 0.0
    ensures cfg.decayPerFrame >= 0.0 ==> r <= Max0(cfg.maxScore)
    ensures r == DecayScore(v as real, start as real, end as real, cfg.frameTolerance, cfg)
  {
    var rangeStart := start as real - cfg.frameTolerance;
    var rangeEnd := end as real + cfg.frameTolerance;
    if (v as real) < rangeStart || (v as real) > rangeEnd then 0.0
    else
      var mid := (start + end) as real / 2.0;
      var distFrames := Abs(v as real - mid);
      Max0(cfg.maxScore - distFrames * cfg.decayPerFrame)
  }

  /** Milliseconds per frame. */
  function FrameMs(cfg: Config): real
    requires cfg.fps != 0.0
  {
    1000.0 / cfg.fps
  }

  /**
   * KIS/QA: the same rule on milliseconds; the tolerance is converted to
   * milliseconds and the distance back to frames.
   */
  function ScoreEventMs(v: int, start: int, end: int, cfg: Config): (r: real)
    requires cfg.fps != 0.0
    ensures r >= 0.0
    ensures ((v as real) < start as real - cfg.frameTolerance * FrameMs(cfg)
             || (v as real) > end as real + cfg.frameTolerance * FrameMs(cfg)) ==> r == 0.0
  {
    var frameMs := FrameMs(cfg);
    var toleranceMs := cfg.frameTolerance * frameMs;
    var rangeStart := start as real - toleranceMs;
    var rangeEnd := end as real + toleranceMs;
    if (v as real) < rangeStart || (v as real) > rangeEnd then 0.0
    else
      var mid := (start + end) as real / 2.0;
      var distFrames := Abs(v as real - mid) / frameMs;
      Max0(cfg.maxScore - distFrames * cfg.decayPerFrame)
  }

  /** Dividing by a positive number keeps a strict inequality both ways. */
  lemma DivideStrict(x: real, y: real, d: real)
    requires d > 0.0
    ensures x < y <==> x / d < y / d
  {
    if x < y {
      DivideMonotone(x, y, d);
      assert x / d != y / d by {
        assert (x / d) * d == x && (y / d) * d == y;
      }
    }
    if x / d < y / d {
      assert (x / d) * d == x && (y / d) * d == y;
      ScaleMonotone(d, x / d, y / d);
      assert x <= y;
    }
  }

  /**
   * For a positive frame rate, the millisecond scorer is the frame rule
   * applied after converting every coordinate from milliseconds to frames.
   */
  lemma MsScorerIsFrameRuleInFrames(v: int, start: int, end: int, cfg: Config)
    requires cfg.fps > 0.0
    ensures ScoreEventMs(v, start, end, cfg)
         == DecayScore(v as real / FrameMs(cfg), start as real / FrameMs(cfg), end as real / FrameMs(cfg),
                       cfg.frameTolerance, cfg)
  {
    var fm := FrameMs(cfg);
    WindowInFrames(v, start, end, cfg);
    ScaleDistance(v, start, end, fm);
    SameWindowSameScore(v, start, end, cfg, v as real / fm, start as real / fm, end as real / fm);
  }

  /** A millisecond value lies outside the widened window exactly when its frame coordinate does. */
  lemma WindowInFrames(v: int, start: int, end: int, cfg: Config)
    requires cfg.fps > 0.0
    ensures FrameMs(cfg) > 0.0
    ensures (v as real) < start as real - cfg.frameTolerance * FrameMs(cfg)
            <==> v as real / FrameMs(cfg) < start as real / FrameMs(cfg) - cfg.frameTolerance
    ensures (v as real) > end as real + cfg.frameTolerance * FrameMs(cfg)
            <==> v as real / FrameMs(cfg) > end as real / FrameMs(cfg) + cfg.frameTolerance
  {
    var fm := FrameMs(cfg);
    var tol := cfg.frameTolerance;
    assert fm > 0.0;
    ScaleShift(start as real, tol, fm);
    ScaleShift(end as real, tol, fm);
    DivideStrict(v as real, start as real - tol * fm, fm);
    DivideStrict(end as real + tol * fm, v as real, fm);
  }

  /**
   * The millisecond scorer agrees with the decay rule at any frame
   * coordinates that fall inside the window exactly when the millisecond
   * coordinates do and that have the same distance in frames.
   */
  lemma SameWindowSameScore(v: int, start: int, end: int, cfg: Config, x: real, lo: real, hi: real)
    requires cfg.fps > 0.0
    requires (v as real) < start as real - cfg.frameTolerance * FrameMs(cfg) <==> x < lo - cfg.frameTolerance
    requires (v as real) > end as real + cfg.frameTolerance * FrameMs(cfg) <==> x > hi + cfg.frameTolerance
    requires Abs(v as real - (start + end) as real / 2.0) / FrameMs(cfg) == Abs(x - (lo + hi) / 2.0)
    ensures ScoreEventMs(v, start, end, cfg) == DecayScore(x, lo, hi, cfg.frameTolerance, cfg)
  {
  }

  /** Shifting by a number of frames, then scaling to frames, shifts the scaled value by as many. */
  lemma ScaleShift(a: real, k: real, fm: real)
    requires fm > 0.0
    ensures (a + k * fm) / fm == a / fm + k
    ensures (a - k * fm) / fm == a / fm - k
  {
    assert (a / fm + k) * fm == a + k * fm;
    assert (a / fm - k) * fm == a - k * fm;
  }

  /** Scaling to frames scales the distance from the midpoint alike. */
  lemma ScaleDistance(v: int, start: int, end: int, fm: real)
    requires fm > 0.0
    ensures Abs(v as real - (start + end) as real / 2.0) / fm
         == Abs(v as real / fm - (start as real / fm + end as real / fm) / 2.0)
  {
    var x, lo, hi := v as real / fm, start as real / fm, end as real / fm;
    assert (x - (lo + hi) / 2.0) * fm == v as real - (start + end) as real / 2.0;
  }

  /**
   * With the defaults a frame is 40 ms, so the window reaches 480 ms past
   * either end and each 40 ms from the midpoint costs one point.
   */
  lemma ScoreEventMsExamples()
    ensures ScoreEventMs(1020, 1000, 1040, DefaultConfig) == 100.0
    ensures ScoreEventMs(1060, 1000, 1040, DefaultConfig) == 99.0
    ensures ScoreEventMs(1520, 1000, 1040, DefaultConfig) == 87.5
    ensures ScoreEventMs(1521, 1000, 1040, DefaultConfig) == 0.0
  {
  }

  /** The scorer a task type uses: milliseconds for KIS and QA, frames otherwise. */
  function ScoreEvent(kind: TaskType, v: int, ev: Event, cfg: Config): (r: real)
    requires kind == KIS || kind == QA ==> cfg.fps != 0.0
    ensures r >= 0.0
    ensures kind == KIS || kind == QA ==> r == ScoreEventMs(v, ev.start, ev.end, cfg)
    ensures kind == TR || kind == Unknown ==> r == ScoreEventFrame(v, ev.start, ev.end, cfg)
  {
    if kind == KIS || kind == QA then ScoreEventMs(v, ev.start, ev.end, cfg)
    else ScoreEventFrame(v, ev.start, ev.end, cfg)
  }

  /**
   * What the source needs to avoid a division by zero: a zero frame rate is
   * reached only when a KIS/QA value is scored against an event.
   */
  predicate LegacyDefined(kind: TaskType, values: seq<int>, events: seq<Event>, cfg: Config) {
    (kind == KIS || kind == QA) && |values| > 0 && |events| > 0 ==> cfg.fps != 0.0
  }

  /** One score per event: event i against value i, zero where no value was submitted. */
  function PerEventScores(kind: TaskType, values: seq<int>, events: seq<Event>, cfg: Config): (s: seq<real>)
    requires LegacyDefined(kind, values, events, cfg)
    ensures |s| == |events|
    ensures forall i :: 0 <= i < |s| ==> s[i] >= 0.0
    ensures forall i :: |values| <= i < |s| ==> s[i] == 0.0
    ensures forall i :: 0 <= i < |s| && i < |values| ==> s[i] == ScoreEvent(kind, values[i], events[i], cfg)
  {
    if |events| == 0 then []
    else
      var prev := PerEventScores(kind, values, events[..|events| - 1], cfg);
      var i := |events| - 1;
      prev + [if i < |values| then ScoreEvent(kind, values[i], events[i], cfg) else 0.0]
  }

  /** Values beyond the number of events are never looked at. */
  lemma ExtraValuesIgnored(kind: TaskType, values: seq<int>, extra: seq<int>, events: seq<Event>, cfg: Config)
    requires |values| >= |events|
    requires LegacyDefined(kind, values, events, cfg)
    ensures LegacyDefined(kind, values + extra, events, cfg)
    ensures PerEventScores(kind, values + extra, events, cfg) == PerEventScores(kind, values, events, cfg)
  {
    var a := PerEventScores(kind, values + extra, events, cfg);
    var b := PerEventScores(kind, values, events, cfg);
    forall i | 0 <= i < |events|
      ensures a[i] == b[i]
    {
      assert (values + extra)[i] == values[i];
    }
  }

  /** The smallest entry of a non-empty list. */
  function Minimum(s: seq<real>): (m: real)
    requires |s| > 0
    ensures exists i :: 0 <= i < |s| && s[i] == m
    ensures forall i :: 0 <= i < |s| ==> m <= s[i]
  {
    if |s| == 1 then s[0]
    else
      var prev := Minimum(s[..|s| - 1]);
      assert forall i :: 0 <= i < |s| - 1 ==> s[..|s| - 1][i] == s[i];
      if s[|s| - 1] < prev then s[|s| - 1] else prev
  }

  /** The largest entry of a non-empty list. */
  function Maximum(s: seq<real>): (m: real)
    requires |s| > 0
    ensures exists i :: 0 <= i < |s| && s[i] == m
    ensures forall i :: 0 <= i < |s| ==> s[i] <= m
  {
    if |s| == 1 then s[0]
    else
      var prev := Maximum(s[..|s| - 1]);
      assert forall i :: 0 <= i < |s| - 1 ==> s[..|s| - 1][i] == s[i];
      if s[|s| - 1] > prev then s[|s| - 1] else prev
  }

  /** A sum lies between length times minimum and length times maximum. */
  lemma {:induction false} SumBetweenExtremes(s: seq<real>, lo: real, hi: real)
    requires forall i :: 0 <= i < |s| ==> lo <= s[i] <= hi
    ensures |s| as real * lo <= Sum(s) <= |s| as real * hi
  {
    if |s| > 0 {
      SumBetweenExtremes(s[..|s| - 1], lo, hi);
      assert |s| as real * lo == (|s| - 1) as real * lo + lo;
      assert |s| as real * hi == (|s| - 1) as real * hi + hi;
    }
  }

  /** A list of non-negative entries has a non-negative sum. */
  lemma {:induction false} SumNonNegative(s: seq<real>)
    requires forall i :: 0 <= i < |s| ==> s[i] >= 0.0
    ensures Sum(s) >= 0.0
  {
    if |s| > 0 {
      SumNonNegative(s[..|s| - 1]);
    }
  }

  function Mean(s: seq<real>): real
    requires |s| > 0
  {
    Sum(s) / |s| as real
  }

  /** A quotient by n of a value between n * lo and n * hi lies between lo and hi. */
  lemma QuotientBetween(x: real, n: real, lo: real, hi: real)
    requires n > 0.0 && n * lo <= x <= n * hi
    ensures lo <= x / n <= hi
  {
    QuotientCompare(x, n, lo);
    QuotientCompare(x, n, hi);
    assert lo * n == n * lo && hi * n == n * hi;
  }

  /** The mean of entries bounded by lo and hi is bounded by lo and hi. */
  lemma MeanOfBounded(s: seq<real>, lo: real, hi: real)
    requires |s| > 0
    requires forall i :: 0 <= i < |s| ==> lo <= s[i] <= hi
    ensures lo <= Mean(s) <= hi
  {
    SumBetweenExtremes(s, lo, hi);
    QuotientBetween(Sum(s), |s| as real, lo, hi);
  }

  /** The mean lies between the minimum and the maximum. */
  lemma MeanBetweenExtremes(s: seq<real>)
    requires |s| > 0
    ensures Minimum(s) <= Mean(s) <= Maximum(s)
  {
    MeanOfBounded(s, Minimum(s), Maximum(s));
  }

  /** Dividing a non-negative value by at least one does not increase it. */
  lemma QuotientAtMost(x: real, n: real)
    requires x >= 0.0 && n >= 1.0
    ensures x / n <= x
  {
    ScaleMonotone(x, 1.0, n);
    QuotientBetween(x, n, 0.0, x);
  }

  /**
   * Aggregation: an empty list gives 0; "sum" and "min" do what they say;
   * "mean" and any other method name give the mean.
   */
  function Aggregate(scores: seq<real>, aggregation: string): (r: real)
    ensures |scores| == 0 ==> r == 0.0
    ensures |scores| > 0 && aggregation == "sum" ==> r == Sum(scores)
    ensures |scores| > 0 && aggregation == "min" ==>
      (exists i :: 0 <= i < |scores| && scores[i] == r) && forall i :: 0 <= i < |scores| ==> r <= scores[i]
    ensures |scores| > 0 && aggregation != "sum" && aggregation != "min" ==> r * |scores| as real == Sum(scores)
  {
    if |scores| == 0 then 0.0
    else if aggregation == "mean" then Mean(scores)
    else if aggregation == "sum" then Sum(scores)
    else if aggregation == "min" then Minimum(scores)
    else Mean(scores)
  }

  /** What the legacy scorer reports: the aggregate and its per-event breakdown. */
  datatype LegacyResult = LegacyResult(finalScore: real, perEventScores: seq<real>, numGtEvents: nat, numUserEvents: nat)

  /** Pair the points, score event by event, aggregate. */
  function ScoreSubmissionLegacy(sub: Submission, gt: GroundTruth, cfg: Config): (r: LegacyResult)
    requires |gt.points| % 2 == 0
    requires LegacyDefined(sub.kind, sub.values, PointsToEvents(gt.points), cfg)
    ensures |r.perEventScores| == r.numGtEvents == |gt.points| / 2
    ensures r.numUserEvents == |sub.values|
    ensures r.perEventScores == PerEventScores(sub.kind, sub.values, PointsToEvents(gt.points), cfg)
    ensures r.finalScore == Aggregate(r.perEventScores, cfg.aggregation)
    ensures r.finalScore >= 0.0
  {
    var events := PointsToEvents(gt.points);
    var scores := PerEventScores(sub.kind, sub.values, events, cfg);
    AggregateNonNegative(scores, cfg.aggregation);
    LegacyResult(Aggregate(scores, cfg.aggregation), scores, |events|, |sub.values|)
  }

  /** Aggregating non-negative scores gives a non-negative result, whatever the method. */
  lemma AggregateNonNegative(scores: seq<real>, aggregation: string)
    requires forall i :: 0 <= i < |scores| ==> scores[i] >= 0.0
    ensures Aggregate(scores, aggregation) >= 0.0
  {
    if |scores| > 0 {
      SumNonNegative(scores);
      if aggregation != "sum" && aggregation != "min" {
        QuotientCompare(Sum(scores), |scores| as real, 0.0);
      }
    }
  }

  /** The minimum never exceeds the mean, and for non-negative scores the mean never exceeds the sum. */
  lemma AggregationOrder(scores: seq<real>)
    requires |scores| > 0
    requires forall i :: 0 <= i < |scores| ==> scores[i] >= 0.0
    ensures Aggregate(scores, "min") <= Aggregate(scores, "mean") <= Aggregate(scores, "sum")
  {
    MeanBetweenExtremes(scores);
    SumNonNegative(scores);
    QuotientAtMost(Sum(scores), |scores| as real);
  }
}
