/**
 * The tolerance-based event matcher of the current scoring engine
 * (app/core/scoring.py): a distance-weighted quality per (value, event)
 * pair and a greedy best-fit assignment of each submitted value to one event.
 */
module Matching {
  import opened Events

  function Abs(x: real): real {
    if x < 0.0 then -x else x
  }

  /** Midpoint of an event. */
  function Center(ev: Event): real {
    (ev.start + ev.end) as real / 2.0
  }

  /** Distance of a submitted value from an event's midpoint. */
  function Distance(v: int, ev: Event): real {
    Abs(v as real - Center(ev))
  }

  /** Half the event's width plus the tolerance: the farthest a value may lie from the midpoint. */
  function MaxDistance(ev: Event, tol: int): real {
    (ev.end - ev.start) as real / 2.0 + tol as real
  }

  /** Twice the distance from the midpoint, which is an integer: |2v - start - end|. */
  function Offset2(v: int, ev: Event): nat {
    if 2 * v - ev.start - ev.end < 0 then ev.start + ev.end - 2 * v else 2 * v - ev.start - ev.end
  }

  /** Twice the maximum distance, which is an integer: the event's width plus twice the tolerance. */
  function Reach2(ev: Event, tol: int): int {
    ev.end - ev.start + 2 * tol
  }

  /** The real distances are halves of the integer ones. */
  lemma Doubled(v: int, ev: Event, tol: int)
    ensures Distance(v, ev) == Offset2(v, ev) as real / 2.0
    ensures MaxDistance(ev, tol) == Reach2(ev, tol) as real / 2.0
  {
  }

  /**
   * The quality formula divides the distance by the maximum distance; that
   * division is reached with a zero divisor only when the value sits on the
   * midpoint of an event whose maximum distance is zero.
   */
  predicate QualityDefined(v: int, ev: Event, tol: int) {
    Reach2(ev, tol) != 0 || Offset2(v, ev) != 0
  }

  /** On a proper interval with a positive tolerance the quality is always defined. */
  lemma ProperEventDefined(v: int, ev: Event, tol: int)
    requires ev.start <= ev.end && tol > 0
    ensures QualityDefined(v, ev, tol)
  {
  }

  /**
   * Match quality of one value against one event: zero beyond the maximum
   * distance, otherwise decaying linearly from 1 at the midpoint to 0.5 at
   * the boundary. The contract compares the doubled distances, which are
   * integers.
   */
  function MatchScore(v: int, ev: Event, tol: int): (q: real)
    requires QualityDefined(v, ev, tol)
    ensures q == 0.0 <==> Offset2(v, ev) > Reach2(ev, tol)
    ensures q != 0.0 ==> 0.5 <= q <= 1.0
    ensures q == 1.0 <==> Offset2(v, ev) == 0 && Reach2(ev, tol) > 0
    ensures q == 0.5 <==> Offset2(v, ev) == Reach2(ev, tol)
  {
    Doubled(v, ev, tol);
    var distance := Distance(v, ev);
    var maxDistance := MaxDistance(ev, tol);
    if distance > maxDistance then 0.0
    else
      var ratio := distance / maxDistance;
      RatioBounds(distance, maxDistance);
      1.0 - 0.5 * ratio
  }

  /** A distance within the maximum gives a ratio in [0, 1] that is 1 only on the boundary. */
  lemma RatioBounds(d: real, m: real)
    requires 0.0 <= d <= m && m != 0.0
    ensures 0.0 <= d / m <= 1.0
    ensures d / m == 1.0 <==> d == m
  {
    assert (d / m) * m == d;
  }

  /** Dividing by the same positive maximum keeps the order of two distances. */
  lemma RatioMonotone(d1: real, d2: real, m: real)
    requires d1 <= d2 && m > 0.0
    ensures d1 / m <= d2 / m
  {
    assert (d2 / m - d1 / m) * m == d2 - d1;
  }

  /** A value closer to an event's midpoint never gets a lower quality. */
  lemma QualityDecreasesWithDistance(v1: int, v2: int, ev: Event, tol: int)
    requires QualityDefined(v1, ev, tol) && QualityDefined(v2, ev, tol)
    requires Offset2(v1, ev) <= Offset2(v2, ev)
    ensures MatchScore(v1, ev, tol) >= MatchScore(v2, ev, tol)
  {
    Doubled(v1, ev, tol);
    Doubled(v2, ev, tol);
    var d1, d2, m := Distance(v1, ev), Distance(v2, ev), MaxDistance(ev, tol);
    if d2 <= m {
      assert m > 0.0;
      RatioMonotone(d1, d2, m);
    }
  }

  /** The worked example of the source: event [10000, 10050] with a tolerance of 12 frames. */
  lemma MatchScoreExamples()
    ensures MatchScore(10025, Event(10000, 10050), 12) == 1.0
    ensures MatchScore(10037, Event(10000, 10050), 12) == 31.0 / 37.0
    ensures MatchScore(10050, Event(10000, 10050), 12) == 49.0 / 74.0
    ensures MatchScore(10062, Event(10000, 10050), 12) == 0.5
    ensures MatchScore(10063, Event(10000, 10050), 12) == 0.0
  {
    var ev := Event(10000, 10050);
    assert Center(ev) == 10025.0 && MaxDistance(ev, 12) == 37.0;
  }

  /** Every value/event pair has a defined quality. */
  predicate AllDefined(values: seq<int>, events: seq<Event>, tol: int) {
    forall i, j :: 0 <= i < |values| && 0 <= j < |events| ==> QualityDefined(values[i], events[j], tol)
  }

  /** Every event is a proper interval and the tolerance is positive. */
  lemma ProperEventsDefined(values: seq<int>, events: seq<Event>, tol: int)
    requires tol > 0
    requires forall j :: 0 <= j < |events| ==> events[j].start <= events[j].end
    ensures AllDefined(values, events, tol)
  {
  }

  /** The event chosen by one value (`index` is -1 when none) and its quality. */
  datatype Pick = Pick(index: int, quality: real)

  /**
   * The scan over the first `n` events for one value: keeps the first
   * index whose quality is positive and strictly larger than all before it.
   */
  function BestPick(v: int, events: seq<Event>, tol: int, n: nat): (p: Pick)
    requires n <= |events|
    requires forall j :: 0 <= j < |events| ==> QualityDefined(v, events[j], tol)
    ensures -1 <= p.index < n
    ensures p.index == -1 ==> p.quality == 0.0 && forall j :: 0 <= j < n ==> MatchScore(v, events[j], tol) == 0.0
    ensures p.index >= 0 ==> 0.0 < p.quality <= 1.0 && p.quality == MatchScore(v, events[p.index], tol)
    ensures forall j :: 0 <= j < n ==> MatchScore(v, events[j], tol) <= p.quality
    ensures forall j :: 0 <= j < p.index ==> MatchScore(v, events[j], tol) < p.quality
  {
    if n == 0 then Pick(-1, 0.0)
    else
      var prev := BestPick(v, events, tol, n - 1);
      var q := MatchScore(v, events[n - 1], tol);
      if q > 0.0 && q > prev.quality then Pick(n - 1, q) else prev
  }

  /** The event one value picks among all events. */
  function PickFor(v: int, events: seq<Event>, tol: int): (p: Pick)
    requires forall j :: 0 <= j < |events| ==> QualityDefined(v, events[j], tol)
    ensures -1 <= p.index < |events|
    ensures p.index == -1 <==> forall j :: 0 <= j < |events| ==> MatchScore(v, events[j], tol) == 0.0
    ensures p.index >= 0 ==> 0.0 < p.quality && p.quality == MatchScore(v, events[p.index], tol)
    ensures forall j :: 0 <= j < |events| ==> MatchScore(v, events[j], tol) <= p.quality
    ensures forall j :: 0 <= j < p.index ==> MatchScore(v, events[j], tol) < p.quality
  {
    BestPick(v, events, tol, |events|)
  }

  /** A value picks an event exactly when some event gives it a positive quality. */
  lemma PickForIffSomePositive(v: int, events: seq<Event>, tol: int)
    requires forall j :: 0 <= j < |events| ==> QualityDefined(v, events[j], tol)
    ensures PickFor(v, events, tol).index >= 0 <==>
      exists j :: 0 <= j < |events| && MatchScore(v, events[j], tol) > 0.0
  {
    var p := PickFor(v, events, tol);
    if p.index >= 0 {
      assert MatchScore(v, events[p.index], tol) > 0.0;
    }
  }

  /**
   * The best quality recorded per event after the values have been
   * processed in order: entry `j` is 0.0 when no value picked event `j`
   * (the source's dictionary has no key `j`), otherwise the largest quality
   * among the values that picked it (see the three lemmas below).
   */
  function EventScores(values: seq<int>, events: seq<Event>, tol: int): (s: seq<real>)
    requires AllDefined(values, events, tol)
    ensures |s| == |events|
  {
    if |values| == 0 then seq(|events|, _ => 0.0)
    else
      var prev := EventScores(values[..|values| - 1], events, tol);
      var p := PickFor(values[|values| - 1], events, tol);
      if p.index >= 0 && p.quality > prev[p.index] then prev[p.index := p.quality] else prev
  }

  /** Every recorded quality lies in [0, 1]. */
  lemma {:induction false} EventScoresBounded(values: seq<int>, events: seq<Event>, tol: int)
    requires AllDefined(values, events, tol)
    ensures forall j :: 0 <= j < |events| ==> 0.0 <= EventScores(values, events, tol)[j] <= 1.0
  {
    if |values| > 0 {
      EventScoresBounded(values[..|values| - 1], events, tol);
    }
  }

  /** An event keeps at least the quality of every value that picked it. */
  lemma {:induction false} EventScoresKeepBest(values: seq<int>, events: seq<Event>, tol: int)
    requires AllDefined(values, events, tol)
    ensures forall i :: 0 <= i < |values| && PickFor(values[i], events, tol).index >= 0 ==>
      PickFor(values[i], events, tol).quality <= EventScores(values, events, tol)[PickFor(values[i], events, tol).index]
  {
    if |values| > 0 {
      var init := values[..|values| - 1];
      EventScoresKeepBest(init, events, tol);
      forall i | 0 <= i < |init|
        ensures init[i] == values[i]
      {
      }
    }
  }

  /** A positive recorded quality is exactly the quality of some value that picked that event. */
  lemma {:induction false} EventScoresWitnessed(values: seq<int>, events: seq<Event>, tol: int)
    requires AllDefined(values, events, tol)
    ensures forall j :: 0 <= j < |events| && EventScores(values, events, tol)[j] != 0.0 ==>
      exists i :: 0 <= i < |values| && PickFor(values[i], events, tol) == Pick(j, EventScores(values, events, tol)[j])
  {
    if |values| > 0 {
      var init := values[..|values| - 1];
      EventScoresWitnessed(init, events, tol);
      var s := EventScores(values, events, tol);
      var prev := EventScores(init, events, tol);
      forall j | 0 <= j < |events| && s[j] != 0.0
        ensures exists i :: 0 <= i < |values| && PickFor(values[i], events, tol) == Pick(j, s[j])
      {
        if s[j] == prev[j] {
          var i :| 0 <= i < |init| && PickFor(init[i], events, tol) == Pick(j, prev[j]);
          assert init[i] == values[i];
        } else {
          assert PickFor(values[|values| - 1], events, tol) == Pick(j, s[j]);
        }
      }
    }
  }

  /** Number of positive entries: the number of events that were picked. */
  function CountPositive(s: seq<real>): (c: nat)
    ensures c <= |s|
  {
    if |s| == 0 then 0
    else CountPositive(s[..|s| - 1]) + (if s[|s| - 1] > 0.0 then 1 else 0)
  }

  function Sum(s: seq<real>): real {
    if |s| == 0 then 0.0 else Sum(s[..|s| - 1]) + s[|s| - 1]
  }

  /** The indices of the positive entries of a score list. */
  function PositiveIndices(s: seq<real>): set<int> {
    set j | 0 <= j < |s| && s[j] > 0.0
  }

  /** Counting positive entries is the size of the set of their indices. */
  lemma {:induction false} CountPositiveIsCardinality(s: seq<real>)
    ensures CountPositive(s) == |PositiveIndices(s)|
  {
    if |s| > 0 {
      var init := s[..|s| - 1];
      CountPositiveIsCardinality(init);
      if s[|s| - 1] > 0.0 {
        assert PositiveIndices(s) == PositiveIndices(init) + {|s| - 1};
      } else {
        assert PositiveIndices(s) == PositiveIndices(init);
      }
    }
  }

  /** With all entries in [0, 1], the sum lies in [0, |s|] and is 0 when no entry is positive. */
  lemma {:induction false} SumBounds(s: seq<real>)
    requires forall j :: 0 <= j < |s| ==> 0.0 <= s[j] <= 1.0
    ensures 0.0 <= Sum(s) <= |s| as real
    ensures CountPositive(s) == 0 ==> Sum(s) == 0.0
  {
    if |s| > 0 {
      SumBounds(s[..|s| - 1]);
    }
  }

  /** The events picked by at least one value: the keys of the source's dictionary. */
  function PickedEvents(values: seq<int>, events: seq<Event>, tol: int): set<int>
    requires AllDefined(values, events, tol)
  {
    set i | 0 <= i < |values| && PickFor(values[i], events, tol).index >= 0 :: PickFor(values[i], events, tol).index
  }

  /** The positive entries of the recorded scores are exactly the picked events. */
  lemma PositiveIndicesArePicked(values: seq<int>, events: seq<Event>, tol: int)
    requires AllDefined(values, events, tol)
    ensures PositiveIndices(EventScores(values, events, tol)) == PickedEvents(values, events, tol)
  {
    var s := EventScores(values, events, tol);
    EventScoresKeepBest(values, events, tol);
    EventScoresWitnessed(values, events, tol);
    forall j | j in PositiveIndices(s)
      ensures j in PickedEvents(values, events, tol)
    {
      var i :| 0 <= i < |values| && PickFor(values[i], events, tol) == Pick(j, s[j]);
    }
  }

  /** Result of the matcher: matched events, total events and average quality. */
  datatype MatchOutcome = MatchOutcome(matched: nat, total: nat, avgQuality: real)

  /**
   * The matcher. The average divides the recorded qualities by the total
   * number of events, so unmatched events count as zero.
   */
  function CheckMatchWithTolerance(values: seq<int>, events: seq<Event>, tol: int): (r: MatchOutcome)
    requires AllDefined(values, events, tol)
    ensures |events| == 0 ==> r == MatchOutcome(0, 0, 0.0)
    ensures r.total == |events|
    ensures r.matched == |PickedEvents(values, events, tol)|
    ensures r.matched <= r.total
    ensures 0.0 <= r.avgQuality <= 1.0
    ensures r.matched == 0 ==> r.avgQuality == 0.0
    ensures r.matched > 0 ==> r.avgQuality == Sum(EventScores(values, events, tol)) / r.total as real
  {
    if |events| == 0 then MatchOutcome(0, 0, 0.0)
    else
      var scores := EventScores(values, events, tol);
      var matched := CountPositive(scores);
      MatchedIsPickedCount(values, events, tol);
      EventScoresBounded(values, events, tol);
      SumBounds(scores);
      var total := |events|;
      var avg := if matched > 0 then Sum(scores) / total as real else 0.0;
      AverageBounds(Sum(scores), total);
      MatchOutcome(matched, total, avg)
  }

  /** The number of positive recorded qualities is the number of picked events. */
  lemma MatchedIsPickedCount(values: seq<int>, events: seq<Event>, tol: int)
    requires AllDefined(values, events, tol)
    ensures CountPositive(EventScores(values, events, tol)) == |PickedEvents(values, events, tol)|
  {
    CountPositiveIsCardinality(EventScores(values, events, tol));
    PositiveIndicesArePicked(values, events, tol);
  }

  /** Dividing a sum in [0, n] by n gives a value in [0, 1]. */
  lemma AverageBounds(sum: real, n: nat)
    requires n > 0 && 0.0 <= sum <= n as real
    ensures 0.0 <= sum / n as real <= 1.0
    ensures (sum / n as real) * n as real == sum
  {
  }

  /** When every value picks the same event, exactly one event counts as matched. */
  lemma AllPickOneEvent(values: seq<int>, events: seq<Event>, tol: int, e: nat)
    requires AllDefined(values, events, tol) && |values| > 0
    requires forall i :: 0 <= i < |values| ==> PickFor(values[i], events, tol).index == e
    ensures CheckMatchWithTolerance(values, events, tol).matched == 1
  {
    var picked := PickedEvents(values, events, tol);
    assert PickFor(values[0], events, tol).index == e;
    assert e in picked;
    forall x | x in picked
      ensures x == e
    {
      var i :| 0 <= i < |values| && PickFor(values[i], events, tol).index >= 0 && x == PickFor(values[i], events, tol).index;
    }
    assert picked == {e};
  }

  /**
   * The greedy assignment is not a best pairing: both values prefer the
   * first event, so the second stays unmatched although the value 9 alone
   * would match it.
   */
  lemma GreedyLeavesMatchableEventUnmatched(values: seq<int>, events: seq<Event>)
    requires |values| == 2 && values[0] == 8 && values[1] == 9
    requires |events| == 2 && events[0] == Event(0, 0) && events[1] == Event(20, 20)
    ensures AllDefined(values, events, 12)
    ensures MatchScore(values[1], events[1], 12) > 0.0
    ensures PickFor(values[0], events, 12).index == 0 && PickFor(values[1], events, 12).index == 0
    ensures CheckMatchWithTolerance(values, events, 12).matched == 1
  {
    ExampleQualities(values, events);
    forall j | 0 <= j < |events|
      ensures events[j].start <= events[j].end
    {
      assert j == 0 || j == 1;
    }
    ProperEventsDefined(values, events, 12);
    PickOfTwo(values[0], events, 12);
    PickOfTwo(values[1], events, 12);
    forall i | 0 <= i < |values|
      ensures PickFor(values[i], events, 12).index == 0
    {
      assert i == 0 || i == 1;
    }
    AllPickOneEvent(values, events, 12, 0);
  }

  /** The qualities of the values 8 and 9 against the events [0, 0] and [20, 20]. */
  lemma ExampleQualities(values: seq<int>, events: seq<Event>)
    requires |values| == 2 && values[0] == 8 && values[1] == 9
    requires |events| == 2 && events[0] == Event(0, 0) && events[1] == Event(20, 20)
    ensures MatchScore(values[0], events[0], 12) == 2.0 / 3.0
    ensures MatchScore(values[0], events[1], 12) == 0.5
    ensures MatchScore(values[1], events[0], 12) == 5.0 / 8.0
    ensures MatchScore(values[1], events[1], 12) == 13.0 / 24.0
  {
    assert MaxDistance(events[0], 12) == 12.0 && MaxDistance(events[1], 12) == 12.0;
    assert Distance(values[0], events[0]) == 8.0 && Distance(values[0], events[1]) == 12.0;
    assert Distance(values[1], events[0]) == 9.0 && Distance(values[1], events[1]) == 11.0;
  }

  /** Of two events, a value picks the first when it gives a positive quality no lower than the second. */
  lemma PickOfTwo(v: int, events: seq<Event>, tol: int)
    requires |events| == 2 && QualityDefined(v, events[0], tol) && QualityDefined(v, events[1], tol)
    requires 0.0 < MatchScore(v, events[0], tol) && MatchScore(v, events[1], tol) <= MatchScore(v, events[0], tol)
    ensures PickFor(v, events, tol) == Pick(0, MatchScore(v, events[0], tol))
  {
    assert BestPick(v, events, tol, 1) == Pick(0, MatchScore(v, events[0], tol));
  }

  /** The source's inner loop: the first event with the strictly largest positive quality for one value. */
  method ScanEvents(v: int, events: seq<Event>, tol: int) returns (bestIdx: int, bestScore: real)
    requires forall j :: 0 <= j < |events| ==> QualityDefined(v, events[j], tol)
    ensures Pick(bestIdx, bestScore) == PickFor(v, events, tol)
  {
    bestIdx, bestScore := -1, 0.0;
    var idx := 0;
    while idx < |events|
      invariant 0 <= idx <= |events|
      invariant Pick(bestIdx, bestScore) == BestPick(v, events, tol, idx)
    {
      var score := MatchScore(v, events[idx], tol);
      if score > 0.0 && score > bestScore {
        bestIdx, bestScore := idx, score;
      }
      idx := idx + 1;
    }
  }

  /** The source's outer loop: records, per event, the best quality of the values that picked it. */
  method RecordBestScores(values: seq<int>, events: seq<Event>, tol: int) returns (scores: seq<real>)
    requires AllDefined(values, events, tol)
    ensures scores == EventScores(values, events, tol)
  {
    scores := seq(|events|, _ => 0.0);
    var i := 0;
    while i < |values|
      invariant 0 <= i <= |values|
      invariant scores == EventScores(values[..i], events, tol)
    {
      var bestIdx, bestScore := ScanEvents(values[i], events, tol);
      assert values[..i + 1][..i] == values[..i];
      if bestIdx >= 0 && bestScore > scores[bestIdx] {
        scores := scores[bestIdx := bestScore];
      }
      i := i + 1;
    }
    assert values[..|values|] == values;
  }

  /** Counts the positive entries and sums all entries in one pass. */
  method CountAndSum(scores: seq<real>) returns (matched: nat, sum: real)
    ensures matched == CountPositive(scores) && sum == Sum(scores)
  {
    matched, sum := 0, 0.0;
    var j := 0;
    while j < |scores|
      invariant 0 <= j <= |scores|
      invariant matched == CountPositive(scores[..j])
      invariant sum == Sum(scores[..j])
    {
      assert scores[..j + 1][..j] == scores[..j];
      if scores[j] > 0.0 {
        matched := matched + 1;
      }
      sum := sum + scores[j];
      j := j + 1;
    }
    assert scores[..|scores|] == scores;
  }

  /** The matcher written as the source's loops. */
  method MatchWithTolerance(values: seq<int>, events: seq<Event>, tol: int)
    returns (matched: nat, total: nat, avgQuality: real)
    requires AllDefined(values, events, tol)
    ensures MatchOutcome(matched, total, avgQuality) == CheckMatchWithTolerance(values, events, tol)
  {
    total := |events|;
    if total == 0 {
      return 0, 0, 0.0;
    }
    var scores := RecordBestScores(values, events, tol);
    var sum;
    matched, sum := CountAndSum(scores);
    avgQuality := if matched > 0 then sum / total as real else 0.0;
  }
}
