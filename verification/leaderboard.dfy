/**
 * A question's leaderboard and the status view over all sessions. The
 * leaderboard keeps the teams that completed with a score, orders them by
 * score (higher first) and then by time taken (less first), keeping ledger
 * order among exact ties as a stable sort does, and numbers them 1..N.
 */
module Leaderboard {
  import opened Wrappers
  import opened Models
  import opened Session

  /** One leaderboard row. */
  datatype Standing = Standing(
    teamId: TeamId,
    score: real,
    timeTaken: real,
    submitCount: nat,
    wrongCount: nat,
    rank: nat)

  /** An entry that appears on the leaderboard: completed and carrying a score. */
  predicate Qualifies(e: TeamSubmission) {
    e.isCompleted && e.finalScore.Some?
  }

  /** Every completed entry of the session has its first-correct time. */
  predicate CompletedHaveTimes(s: QuestionSession) {
    forall t :: t in s.ledger && s.ledger[t].isCompleted ==> s.ledger[t].firstCorrectTime.Some?
  }

  /** The unranked row of a qualifying team; time is measured from the session's start. */
  function StandingOf(s: QuestionSession, t: TeamId): Standing
    requires t in s.ledger && Qualifies(s.ledger[t]) && s.ledger[t].firstCorrectTime.Some?
  {
    var e := s.ledger[t];
    Standing(t, e.finalScore.value, e.firstCorrectTime.value - s.startTime, |e.submitTimes|, e.wrongCount, 0)
  }

  /** The rows of the qualifying teams among `teams`, in the order of `teams`. */
  function Candidates(s: QuestionSession, teams: seq<TeamId>): (rows: seq<Standing>)
    requires CompletedHaveTimes(s)
    requires forall i :: 0 <= i < |teams| ==> teams[i] in s.ledger
    ensures |rows| <= |teams|
    ensures forall i :: 0 <= i < |rows| ==>
              rows[i].teamId in s.ledger && Qualifies(s.ledger[rows[i].teamId])
              && rows[i] == StandingOf(s, rows[i].teamId)
    ensures forall i :: 0 <= i < |teams| && Qualifies(s.ledger[teams[i]]) ==> StandingOf(s, teams[i]) in rows
  {
    if |teams| == 0 then []
    else
      var init := Candidates(s, teams[..|teams| - 1]);
      var t := teams[|teams| - 1];
      if Qualifies(s.ledger[t]) then init + [StandingOf(s, t)] else init
  }

  // ---------------------------------------------------------------------
  // The stable sort
  // ---------------------------------------------------------------------

  /** `a` may be listed before `b`: a higher score, or the same score in no more time. */
  predicate Precedes(a: Standing, b: Standing) {
    a.score > b.score || (a.score == b.score && a.timeTaken <= b.timeTaken)
  }

  predicate Sorted(rows: seq<Standing>) {
    forall i, j :: 0 <= i < j < |rows| ==> Precedes(rows[i], rows[j])
  }

  /** Places `x` after every row it does not strictly beat, so equal rows keep their order. */
  function Insert(x: Standing, rows: seq<Standing>): (r: seq<Standing>)
    ensures |r| == |rows| + 1
    ensures x in r
    ensures forall y :: y in rows ==> y in r
  {
    if |rows| == 0 then [x]
    else if !Precedes(rows[0], x) then [x] + rows
    else [rows[0]] + Insert(x, rows[1..])
  }

  /** Insertion adds `x` and keeps every other row. */
  lemma {:induction false} InsertPermutes(x: Standing, rows: seq<Standing>)
    ensures multiset(Insert(x, rows)) == multiset(rows) + multiset{x}
  {
    if |rows| > 0 && Precedes(rows[0], x) {
      InsertPermutes(x, rows[1..]);
      assert rows == [rows[0]] + rows[1..];
      assert Insert(x, rows) == [rows[0]] + Insert(x, rows[1..]);
    }
  }

  /** A row that may precede `x` and every row of a list may precede every row after the insertion. */
  lemma {:induction false} InsertBelow(h: Standing, x: Standing, rows: seq<Standing>)
    requires Precedes(h, x)
    requires forall j :: 0 <= j < |rows| ==> Precedes(h, rows[j])
    ensures forall j :: 0 <= j < |Insert(x, rows)| ==> Precedes(h, Insert(x, rows)[j])
  {
    if |rows| > 0 && Precedes(rows[0], x) {
      InsertBelow(h, x, rows[1..]);
      assert Insert(x, rows) == [rows[0]] + Insert(x, rows[1..]);
    }
  }

  /** Inserting into a sorted list keeps it sorted. */
  lemma {:induction false} InsertSorted(x: Standing, rows: seq<Standing>)
    requires Sorted(rows)
    ensures Sorted(Insert(x, rows))
  {
    if |rows| > 0 && Precedes(rows[0], x) {
      var tail := Insert(x, rows[1..]);
      InsertSorted(x, rows[1..]);
      InsertBelow(rows[0], x, rows[1..]);
      var r := Insert(x, rows);
      assert r == [rows[0]] + tail;
      forall i, j | 0 <= i < j < |r|
        ensures Precedes(r[i], r[j])
      {
        if i == 0 {
          assert r[j] == tail[j - 1];
        } else {
          assert r[i] == tail[i - 1] && r[j] == tail[j - 1];
        }
      }
    }
  }

  /** Insertion sort over the rows in their given order: later rows go after equal earlier ones. */
  function SortStandings(rows: seq<Standing>): (r: seq<Standing>)
    ensures |r| == |rows|
    ensures forall y :: y in rows ==> y in r
  {
    if |rows| == 0 then []
    else Insert(rows[|rows| - 1], SortStandings(rows[..|rows| - 1]))
  }

  /** The sort is a permutation of its input. */
  lemma {:induction false} SortStandingsPermutes(rows: seq<Standing>)
    ensures multiset(SortStandings(rows)) == multiset(rows)
  {
    if |rows| > 0 {
      var init, last := rows[..|rows| - 1], rows[|rows| - 1];
      SortStandingsPermutes(init);
      InsertPermutes(last, SortStandings(init));
      assert SortStandings(rows) == Insert(last, SortStandings(init));
      SplitLast(rows);
    }
  }

  /** A non-empty list holds the rows before its last one and the last one. */
  lemma SplitLast<T>(s: seq<T>)
    requires |s| > 0
    ensures multiset(s) == multiset(s[..|s| - 1]) + multiset{s[|s| - 1]}
  {
    assert s == s[..|s| - 1] + [s[|s| - 1]];
  }

  /** The sort's output is ordered by score, then time. */
  lemma {:induction false} SortStandingsSorted(rows: seq<Standing>)
    ensures Sorted(SortStandings(rows))
  {
    if |rows| > 0 {
      SortStandingsSorted(rows[..|rows| - 1]);
      InsertSorted(rows[|rows| - 1], SortStandings(rows[..|rows| - 1]));
    }
  }

  /** The teams, in order, of the rows with exactly this score and time. */
  function TiedTeams(rows: seq<Standing>, score: real, timeTaken: real): (ts: seq<TeamId>)
    ensures |ts| <= |rows|
  {
    if |rows| == 0 then [] else TieOf(rows[0], score, timeTaken) + TiedTeams(rows[1..], score, timeTaken)
  }

  /** The row's team when the row has exactly this score and time. */
  function TieOf(row: Standing, score: real, timeTaken: real): seq<TeamId> {
    if row.score == score && row.timeTaken == timeTaken then [row.teamId] else []
  }

  lemma {:induction false} TiedTeamsAppend(a: seq<Standing>, b: seq<Standing>, score: real, timeTaken: real)
    ensures TiedTeams(a + b, score, timeTaken) == TiedTeams(a, score, timeTaken) + TiedTeams(b, score, timeTaken)
  {
    if |a| == 0 {
      assert a + b == b;
    } else {
      TiedTeamsAppend(a[1..], b, score, timeTaken);
      ConsAppend(a, b);
      var head, rest, tail := TieOf(a[0], score, timeTaken), TiedTeams(a[1..], score, timeTaken), TiedTeams(b, score, timeTaken);
      assert TiedTeams(a + b, score, timeTaken) == head + (rest + tail);
      assert head + (rest + tail) == (head + rest) + tail;
    }
  }

  /** The head and the tail of a concatenation whose first part is non-empty. */
  lemma ConsAppend<T>(a: seq<T>, b: seq<T>)
    requires |a| > 0
    ensures (a + b)[0] == a[0] && (a + b)[1..] == a[1..] + b
  {
  }

  /** No row with this key, no tied teams. */
  lemma {:induction false} TiedTeamsNone(rows: seq<Standing>, score: real, timeTaken: real)
    requires forall i :: 0 <= i < |rows| ==> rows[i].score != score || rows[i].timeTaken != timeTaken
    ensures TiedTeams(rows, score, timeTaken) == []
  {
    if |rows| > 0 {
      TiedTeamsNone(rows[1..], score, timeTaken);
    }
  }

  /** A row strictly ahead of the head of a sorted list ties with none of its rows. */
  lemma AheadOfSortedTiesNone(x: Standing, rows: seq<Standing>)
    requires Sorted(rows) && |rows| > 0 && !Precedes(rows[0], x)
    ensures TiedTeams(rows, x.score, x.timeTaken) == []
  {
    forall i | 0 <= i < |rows|
      ensures rows[i].score != x.score || rows[i].timeTaken != x.timeTaken
    {
      if i > 0 {
        assert Precedes(rows[0], rows[i]);
      }
    }
    TiedTeamsNone(rows, x.score, x.timeTaken);
  }

  /** Inserting into a sorted list puts `x` after every row it ties with. */
  lemma {:induction false} InsertKeepsTies(x: Standing, rows: seq<Standing>, score: real, timeTaken: real)
    requires Sorted(rows)
    ensures TiedTeams(Insert(x, rows), score, timeTaken)
         == TiedTeams(rows, score, timeTaken) + TiedTeams([x], score, timeTaken)
  {
    if |rows| == 0 {
      assert Insert(x, rows) == [x];
    } else if !Precedes(rows[0], x) {
      InsertAheadKeepsTies(x, rows, score, timeTaken);
    } else {
      InsertKeepsTies(x, rows[1..], score, timeTaken);
      InsertBehindKeepsTies(x, rows, score, timeTaken);
    }
  }

  /** `x` goes in front of a sorted list whose head it beats, and it ties with none of that list. */
  lemma InsertAheadKeepsTies(x: Standing, rows: seq<Standing>, score: real, timeTaken: real)
    requires Sorted(rows) && |rows| > 0 && !Precedes(rows[0], x)
    ensures TiedTeams(Insert(x, rows), score, timeTaken)
         == TiedTeams(rows, score, timeTaken) + TiedTeams([x], score, timeTaken)
  {
    assert Insert(x, rows) == [x] + rows;
    TiedTeamsAppend([x], rows, score, timeTaken);
    if x.score == score && x.timeTaken == timeTaken {
      AheadOfSortedTiesNone(x, rows);
    } else {
      assert TiedTeams([x], score, timeTaken) == [];
    }
  }

  /** When `x` goes behind the head, the head's tie comes first and the rest follows from the tail. */
  lemma InsertBehindKeepsTies(x: Standing, rows: seq<Standing>, score: real, timeTaken: real)
    requires |rows| > 0 && Precedes(rows[0], x)
    requires TiedTeams(Insert(x, rows[1..]), score, timeTaken)
          == TiedTeams(rows[1..], score, timeTaken) + TiedTeams([x], score, timeTaken)
    ensures TiedTeams(Insert(x, rows), score, timeTaken)
         == TiedTeams(rows, score, timeTaken) + TiedTeams([x], score, timeTaken)
  {
    var r, tail := Insert(x, rows), Insert(x, rows[1..]);
    assert r == [rows[0]] + tail;
    assert r[0] == rows[0] && r[1..] == tail;
    var head := TieOf(rows[0], score, timeTaken);
    var rest, mine := TiedTeams(rows[1..], score, timeTaken), TiedTeams([x], score, timeTaken);
    assert TiedTeams(r, score, timeTaken) == head + (rest + mine);
    assert TiedTeams(rows, score, timeTaken) == head + rest;
    AppendAssociates(head, rest, mine);
  }

  lemma AppendAssociates<T>(a: seq<T>, b: seq<T>, c: seq<T>)
    ensures a + (b + c) == (a + b) + c
  {
  }

  /** The sort is stable: rows that tie keep their relative order. */
  lemma {:induction false} SortStandingsStable(rows: seq<Standing>, score: real, timeTaken: real)
    ensures TiedTeams(SortStandings(rows), score, timeTaken) == TiedTeams(rows, score, timeTaken)
  {
    if |rows| > 0 {
      var init := rows[..|rows| - 1];
      var last := rows[|rows| - 1];
      var sorted := SortStandings(init);
      assert rows == init + [last];
      assert SortStandings(rows) == Insert(last, sorted);
      SortStandingsStable(init, score, timeTaken);
      SortStandingsSorted(init);
      InsertKeepsTies(last, sorted, score, timeTaken);
      TiedTeamsAppend(init, [last], score, timeTaken);
      var lastTie := TiedTeams([last], score, timeTaken);
      calc {
        TiedTeams(SortStandings(rows), score, timeTaken);
        == TiedTeams(Insert(last, sorted), score, timeTaken);
        == TiedTeams(sorted, score, timeTaken) + lastTie;
        == TiedTeams(init, score, timeTaken) + lastTie;
        == TiedTeams(init + [last], score, timeTaken);
        == TiedTeams(rows, score, timeTaken);
      }
    }
  }

  /** Rows with ranks 1..N in list order. */
  function Ranked(rows: seq<Standing>): (r: seq<Standing>)
    ensures |r| == |rows|
    ensures forall i :: 0 <= i < |r| ==> r[i] == rows[i].(rank := i + 1)
  {
    seq(|rows|, i requires 0 <= i < |rows| => rows[i].(rank := i + 1))
  }

  /** Ranking changes no team, score or time, so it changes neither the order nor the ties. */
  lemma {:induction false} RankedKeepsTies(a: seq<Standing>, b: seq<Standing>, score: real, timeTaken: real)
    requires |a| == |b|
    requires forall i :: 0 <= i < |a| ==> a[i] == b[i].(rank := a[i].rank)
    ensures TiedTeams(a, score, timeTaken) == TiedTeams(b, score, timeTaken)
  {
    if |a| > 0 {
      RankedKeepsTies(a[1..], b[1..], score, timeTaken);
    }
  }

  // ---------------------------------------------------------------------
  // The leaderboard
  // ---------------------------------------------------------------------

  /** The sorted, ranked rows of the question's qualifying teams; empty when there is no session. */
  function QuestionLeaderboard(ss: Sessions, qid: QuestionId): (board: seq<Standing>)
    requires WellFormed(ss)
    ensures qid !in ss ==> board == []
    ensures qid in ss ==> |board| <= |ss[qid].arrival|
    ensures forall i :: 0 <= i < |board| ==> board[i].rank == i + 1
  {
    if qid !in ss then []
    else
      var s := ss[qid];
      assert SessionWellFormed(qid, s);
      Ranked(SortStandings(Candidates(s, s.arrival)))
  }

  /** The sort moves rows but neither adds nor drops any. */
  lemma SortStandingsMembers(rows: seq<Standing>)
    ensures forall i :: 0 <= i < |SortStandings(rows)| ==> SortStandings(rows)[i] in rows
    ensures forall x :: x in rows ==> x in SortStandings(rows)
  {
    var r := SortStandings(rows);
    SortStandingsPermutes(rows);
    forall i | 0 <= i < |r|
      ensures r[i] in rows
    {
      assert r[i] in multiset(r);
    }
    forall x | x in rows
      ensures x in r
    {
      assert x in multiset(rows);
    }
  }

  /** A value at two positions of a list is counted at least twice. */
  lemma TwiceCounted<T>(b: seq<T>, i: nat, j: nat)
    requires i < j < |b| && b[i] == b[j]
    ensures multiset(b)[b[i]] >= 2
  {
    assert b == b[..i] + [b[i]] + b[i + 1..j] + [b[j]] + b[j + 1..];
  }

  /** A list without repeats counts every value at most once. */
  lemma {:induction false} DistinctCountsOnce<T>(a: seq<T>, x: T)
    requires Distinct(a)
    ensures multiset(a)[x] <= 1
  {
    if |a| > 0 {
      var rest := a[1..];
      assert a == [a[0]] + rest;
      assert forall i :: 0 <= i < |rest| ==> rest[i] == a[i + 1];
      DistinctCountsOnce(rest, x);
      if a[0] == x {
        assert x !in rest;
      }
    }
  }

  /** A permutation of a list without repeats has none either. */
  lemma DistinctPermuted<T>(a: seq<T>, b: seq<T>)
    requires multiset(a) == multiset(b) && Distinct(a)
    ensures Distinct(b)
  {
    forall i, j | 0 <= i < j < |b|
      ensures b[i] != b[j]
    {
      if b[i] == b[j] {
        TwiceCounted(b, i, j);
        DistinctCountsOnce(a, b[i]);
      }
    }
  }

  /** The candidate rows of distinct teams name distinct teams, each one of `teams`. */
  lemma {:induction false} CandidatesDistinct(s: QuestionSession, teams: seq<TeamId>)
    requires CompletedHaveTimes(s)
    requires forall i :: 0 <= i < |teams| ==> teams[i] in s.ledger
    requires Distinct(teams)
    ensures forall i :: 0 <= i < |Candidates(s, teams)| ==> Candidates(s, teams)[i].teamId in teams
    ensures forall i, j :: 0 <= i < j < |Candidates(s, teams)| ==>
              Candidates(s, teams)[i].teamId != Candidates(s, teams)[j].teamId
  {
    if |teams| > 0 {
      var init := teams[..|teams| - 1];
      var t := teams[|teams| - 1];
      assert forall i :: 0 <= i < |init| ==> init[i] == teams[i];
      CandidatesDistinct(s, init);
      assert t !in init;
    }
  }

  /** No team has two rows on its question's leaderboard. */
  lemma QuestionLeaderboardOneRowPerTeam(ss: Sessions, qid: QuestionId)
    requires WellFormed(ss)
    ensures forall i, j :: 0 <= i < j < |QuestionLeaderboard(ss, qid)| ==>
              QuestionLeaderboard(ss, qid)[i].teamId != QuestionLeaderboard(ss, qid)[j].teamId
  {
    if qid in ss {
      var s := ss[qid];
      assert SessionWellFormed(qid, s);
      var cands := Candidates(s, s.arrival);
      CandidatesDistinct(s, s.arrival);
      assert Distinct(cands);
      var sorted := SortStandings(cands);
      SortStandingsPermutes(cands);
      DistinctPermuted(cands, sorted);
      SortStandingsMembers(cands);
      forall i, j | 0 <= i < j < |sorted|
        ensures sorted[i].teamId != sorted[j].teamId
      {
        assert sorted[i] in cands && sorted[j] in cands;
        assert sorted[i] == StandingOf(s, sorted[i].teamId) && sorted[j] == StandingOf(s, sorted[j].teamId);
      }
      assert QuestionLeaderboard(ss, qid) == Ranked(sorted);
    }
  }

  /** The leaderboard is ordered by score descending then time ascending, and its ranks are 1..N. */
  lemma QuestionLeaderboardOrdered(ss: Sessions, qid: QuestionId)
    requires WellFormed(ss)
    ensures qid !in ss ==> QuestionLeaderboard(ss, qid) == []
    ensures Sorted(QuestionLeaderboard(ss, qid))
    ensures forall i :: 0 <= i < |QuestionLeaderboard(ss, qid)| ==> QuestionLeaderboard(ss, qid)[i].rank == i + 1
  {
    if qid in ss {
      var s := ss[qid];
      assert SessionWellFormed(qid, s);
      var sorted := SortStandings(Candidates(s, s.arrival));
      SortStandingsSorted(Candidates(s, s.arrival));
      var board := Ranked(sorted);
      assert QuestionLeaderboard(ss, qid) == board;
      forall i, j | 0 <= i < j < |board|
        ensures Precedes(board[i], board[j])
      {
        assert Precedes(sorted[i], sorted[j]);
      }
    }
  }

  /**
   * Every leaderboard row belongs to a team that completed with a score,
   * and carries that team's frozen score, its time from the session's
   * start, its attempt count and its wrong count.
   */
  lemma QuestionLeaderboardRows(ss: Sessions, qid: QuestionId)
    requires WellFormed(ss) && qid in ss
    ensures forall i :: 0 <= i < |QuestionLeaderboard(ss, qid)| ==>
              var row := QuestionLeaderboard(ss, qid)[i];
              row.teamId in ss[qid].ledger &&
              var e := ss[qid].ledger[row.teamId];
              Qualifies(e)
              && row.score == e.finalScore.value
              && row.timeTaken == e.firstCorrectTime.value - ss[qid].startTime
              && row.submitCount == |e.submitTimes|
              && row.wrongCount == e.wrongCount
  {
    var s := ss[qid];
    assert SessionWellFormed(qid, s);
    var cands := Candidates(s, s.arrival);
    var sorted := SortStandings(cands);
    SortStandingsMembers(cands);
    var board := QuestionLeaderboard(ss, qid);
    assert board == Ranked(sorted);
    forall i | 0 <= i < |board|
      ensures board[i].teamId in s.ledger && Qualifies(s.ledger[board[i].teamId])
      ensures board[i].(rank := 0) == StandingOf(s, board[i].teamId)
    {
      var k :| 0 <= k < |cands| && cands[k] == sorted[i];
    }
  }

  /** Every team that completed with a score is on the leaderboard. */
  lemma QuestionLeaderboardComplete(ss: Sessions, qid: QuestionId)
    requires WellFormed(ss) && qid in ss
    ensures forall t :: t in ss[qid].ledger && Qualifies(ss[qid].ledger[t]) ==>
              exists i :: 0 <= i < |QuestionLeaderboard(ss, qid)| && QuestionLeaderboard(ss, qid)[i].teamId == t
  {
    forall t | t in ss[qid].ledger && Qualifies(ss[qid].ledger[t])
      ensures exists i :: 0 <= i < |QuestionLeaderboard(ss, qid)| && QuestionLeaderboard(ss, qid)[i].teamId == t
    {
      TeamOnLeaderboard(ss, qid, t);
    }
  }

  /** One qualifying team's row: where it sits on the leaderboard. */
  lemma TeamOnLeaderboard(ss: Sessions, qid: QuestionId, t: TeamId)
    requires WellFormed(ss) && qid in ss
    requires t in ss[qid].ledger && Qualifies(ss[qid].ledger[t])
    ensures exists i :: 0 <= i < |QuestionLeaderboard(ss, qid)| && QuestionLeaderboard(ss, qid)[i].teamId == t
  {
    var s := ss[qid];
    assert SessionWellFormed(qid, s);
    var cands := Candidates(s, s.arrival);
    var sorted := SortStandings(cands);
    SortStandingsMembers(cands);
    var board := QuestionLeaderboard(ss, qid);
    assert board == Ranked(sorted);
    var a :| 0 <= a < |s.arrival| && s.arrival[a] == t;
    assert StandingOf(s, t) in cands;
    var i :| 0 <= i < |sorted| && sorted[i] == StandingOf(s, t);
    assert board[i].teamId == t;
  }

  /** Teams with exactly the same score and time appear in the order their ledger entries were created. */
  lemma LeaderboardTiesKeepLedgerOrder(ss: Sessions, qid: QuestionId, score: real, timeTaken: real)
    requires WellFormed(ss) && qid in ss
    ensures SessionWellFormed(qid, ss[qid])
    ensures TiedTeams(QuestionLeaderboard(ss, qid), score, timeTaken)
         == TiedTeams(Candidates(ss[qid], ss[qid].arrival), score, timeTaken)
  {
    var s := ss[qid];
    assert SessionWellFormed(qid, s);
    var sorted := SortStandings(Candidates(s, s.arrival));
    RankedKeepsTies(Ranked(sorted), sorted, score, timeTaken);
    SortStandingsStable(Candidates(s, s.arrival), score, timeTaken);
  }

  // ---------------------------------------------------------------------
  // The status view
  // ---------------------------------------------------------------------

  /** What the status view reports about one session. */
  datatype SessionStatus = SessionStatus(
    questionId: QuestionId,
    isActive: bool,
    elapsedTime: real,
    remainingTime: real,
    totalTeams: nat,
    completedTeams: nat)

  /** The teams of a session that have completed. */
  function CompletedTeams(s: QuestionSession): (ts: set<TeamId>)
    ensures ts <= s.ledger.Keys
  {
    set t | t in s.ledger && s.ledger[t].isCompleted
  }

  /** The status of every session: activity and timing at `now`, and how many of its teams completed. */
  function AllSessionsStatus(ss: Sessions, now: real): (r: map<QuestionId, SessionStatus>)
    ensures r.Keys == ss.Keys
    ensures forall q :: q in r ==> r[q].questionId == q && r[q].isActive == IsQuestionActive(ss, q, now)
    ensures forall q :: q in r ==> r[q].remainingTime >= 0.0 && r[q].elapsedTime == GetElapsedTime(ss, q, now)
    ensures forall q :: q in r ==> r[q].remainingTime == GetRemainingTime(ss, q, now)
    ensures forall q :: q in r ==> r[q].totalTeams == |ss[q].ledger.Keys|
    ensures forall q :: q in r ==> r[q].completedTeams == |CompletedTeams(ss[q])|
  {
    map q | q in ss :: SessionStatus(q, IsQuestionActive(ss, q, now), GetElapsedTime(ss, q, now),
                                     GetRemainingTime(ss, q, now), |ss[q].ledger|, |CompletedTeams(ss[q])|)
  }

  /** No session reports more completed teams than teams. */
  lemma StatusCompletedAtMostTotal(ss: Sessions, now: real, q: QuestionId)
    requires q in ss
    ensures AllSessionsStatus(ss, now)[q].completedTeams <= AllSessionsStatus(ss, now)[q].totalTeams
  {
    var s := ss[q];
    var done := CompletedTeams(s);
    assert s.ledger.Keys == done + (s.ledger.Keys - done);
  }
}
