/**
 * Ground-truth events: a question's ground truth is a flat, ascending list
 * of points which is read pairwise as `(start, end)` intervals
 * (app/utils.py, `points_to_events`).
 */
module Events {

  /** One ground-truth interval, in milliseconds (KIS/QA) or frames (TR). */
  datatype Event = Event(start: int, end: int)

  /** Non-decreasing order, the loader's invariant on a point list. */
  predicate Ascending(points: seq<int>) {
    forall i, j :: 0 <= i < j < |points| ==> points[i] <= points[j]
  }

  /** Strictly increasing order: no two points coincide. */
  predicate StrictlyAscending(points: seq<int>) {
    forall i, j :: 0 <= i < j < |points| ==> points[i] < points[j]
  }

  /**
   * Pairs up consecutive points. The source asserts an even count, so an
   * odd count is a caller error here too.
   */
  function PointsToEvents(points: seq<int>): (events: seq<Event>)
    requires |points| % 2 == 0
    ensures |events| == |points| / 2
    ensures forall i :: 0 <= i < |events| ==> events[i] == Event(points[2 * i], points[2 * i + 1])
  {
    if |points| == 0 then []
    else [Event(points[0], points[1])] + PointsToEvents(points[2..])
  }

  /** The inverse direction: writes every event back as two points. */
  function Flatten(events: seq<Event>): (points: seq<int>)
    ensures |points| == 2 * |events|
  {
    if |events| == 0 then []
    else [events[0].start, events[0].end] + Flatten(events[1..])
  }

  /** Flattening the paired points gives back exactly the input points. */
  lemma {:induction false} FlattenPointsToEvents(points: seq<int>)
    requires |points| % 2 == 0
    ensures Flatten(PointsToEvents(points)) == points
  {
    if |points| > 0 {
      FlattenPointsToEvents(points[2..]);
      assert PointsToEvents(points)[1..] == PointsToEvents(points[2..]);
      assert points == [points[0], points[1]] + points[2..];
    }
  }

  /** Pairing a flattened event list gives back the same events. */
  lemma {:induction false} PointsToEventsFlatten(events: seq<Event>)
    ensures PointsToEvents(Flatten(events)) == events
  {
    if |events| > 0 {
      PointsToEventsFlatten(events[1..]);
      assert Flatten(events)[2..] == Flatten(events[1..]);
      assert events == [events[0]] + events[1..];
    }
  }

  /** Every event taken from ascending points is a proper interval. */
  lemma AscendingGivesOrderedEvents(points: seq<int>)
    requires |points| % 2 == 0 && Ascending(points)
    ensures forall i :: 0 <= i < |PointsToEvents(points)| ==>
      PointsToEvents(points)[i].start <= PointsToEvents(points)[i].end
  {
    var events := PointsToEvents(points);
    forall i | 0 <= i < |events|
      ensures events[i].start <= events[i].end
    {
      assert events[i] == Event(points[2 * i], points[2 * i + 1]);
    }
  }

  /** The source's example: four points make two events. */
  lemma PointsToEventsExample()
    ensures PointsToEvents([4890, 5000, 5001, 5020]) == [Event(4890, 5000), Event(5001, 5020)]
  {
  }
}
