/**
 * The question session manager: a table from question id to session, each
 * session holding its timing window and a ledger of per-team attempts.
 * Every operation is a transition on an immutable table, and the clock is
 * an explicit `now` (seconds).
 */
module Session {
  import opened Wrappers
  import opened Models

  type TeamId = string

  /** The time limit and buffer a session gets when none are given. */
  const DefaultTimeLimit: int := 300
  const DefaultBufferTime: int := 10

  /** One team's attempts on one question. */
  datatype TeamSubmission = TeamSubmission(
    teamId: TeamId,
    questionId: QuestionId,
    submitTimes: seq<real>,
    wrongCount: nat,
    correctCount: nat,
    isCompleted: bool,
    firstCorrectTime: Option<real>,
    finalScore: Option<real>)

  /**
   * A started question. `arrival` lists the ledger's teams in the order
   * their entries were created, which is the order the source's ledger
   * dictionary iterates in.
   */
  datatype QuestionSession = QuestionSession(
    questionId: QuestionId,
    startTime: real,
    timeLimit: int,
    bufferTime: int,
    isActive: bool,
    ledger: map<TeamId, TeamSubmission>,
    arrival: seq<TeamId>)

  type Sessions = map<QuestionId, QuestionSession>

  /** The zeroed entry a team gets on its first recorded attempt. */
  function ZeroEntry(team: TeamId, qid: QuestionId): TeamSubmission {
    TeamSubmission(team, qid, [], 0, 0, false, None, None)
  }

  /**
   * What the recording discipline keeps true of an entry: one timestamp per
   * attempt, and the team is completed exactly when it has a correct
   * attempt, which is also exactly when it has a first-correct time.
   */
  predicate EntryWellFormed(e: TeamSubmission) {
    |e.submitTimes| == e.wrongCount + e.correctCount
    && (e.isCompleted <==> e.correctCount > 0)
    && (e.isCompleted <==> e.firstCorrectTime.Some?)
    && (!e.isCompleted ==> e.finalScore.None?)
  }

  predicate Distinct<T(==)>(xs: seq<T>) {
    forall i, j :: 0 <= i < j < |xs| ==> xs[i] != xs[j]
  }

  /** A session filed under `qid`: entries are keyed by their own team, and `arrival` lists each key once. */
  predicate SessionWellFormed(qid: QuestionId, s: QuestionSession) {
    s.questionId == qid
    && (forall t :: t in s.ledger ==>
          s.ledger[t].teamId == t && s.ledger[t].questionId == qid && EntryWellFormed(s.ledger[t]))
    && Distinct(s.arrival)
    && (forall t :: t in s.ledger ==> t in s.arrival)
    && (forall i :: 0 <= i < |s.arrival| ==> s.arrival[i] in s.ledger)
  }

  predicate WellFormed(ss: Sessions) {
    forall q :: q in ss ==> SessionWellFormed(q, ss[q])
  }

  // ---------------------------------------------------------------------
  // Starting, looking up, timing
  // ---------------------------------------------------------------------

  /**
   * Installs a fresh active session for `qid`, started at `now` with an
   * empty ledger, replacing any session `qid` had; other questions are
   * untouched.
   */
  function StartQuestion(ss: Sessions, qid: QuestionId, now: real, timeLimit: int, bufferTime: int): (r: Sessions)
    ensures r.Keys == ss.Keys + {qid}
    ensures r[qid].questionId == qid && r[qid].startTime == now && r[qid].isActive
    ensures r[qid].timeLimit == timeLimit && r[qid].bufferTime == bufferTime
    ensures r[qid].ledger == map[] && r[qid].arrival == []
    ensures forall q :: q in ss && q != qid ==> r[q] == ss[q]
  {
    ss[qid := QuestionSession(qid, now, timeLimit, bufferTime, true, map[], [])]
  }

  /** Starting a question keeps the table well formed. */
  lemma StartPreservesWellFormed(ss: Sessions, qid: QuestionId, now: real, timeLimit: int, bufferTime: int)
    requires WellFormed(ss)
    ensures WellFormed(StartQuestion(ss, qid, now, timeLimit, bufferTime))
  {
    var r := StartQuestion(ss, qid, now, timeLimit, bufferTime);
    forall q | q in r
      ensures SessionWellFormed(q, r[q])
    {
      if q != qid {
        assert SessionWellFormed(q, ss[q]);
      }
    }
  }

  /** The session of `qid`, if it has been started. */
  function GetQuestionSession(ss: Sessions, qid: QuestionId): (r: Option<QuestionSession>)
    ensures r.Some? <==> qid in ss
    ensures r.Some? ==> r.value == ss[qid]
  {
    if qid in ss then Some(ss[qid]) else None
  }

  /**
   * Submissions are accepted while the session exists, has not been
   * stopped, and `now` is no later than the start plus the time limit plus
   * the buffer; the deadline itself is still inside.
   */
  function IsQuestionActive(ss: Sessions, qid: QuestionId, now: real): (b: bool)
    ensures b <==> qid in ss && ss[qid].isActive
                   && now <= ss[qid].startTime + (ss[qid].timeLimit + ss[qid].bufferTime) as real
  {
    if qid !in ss || !ss[qid].isActive then false
    else
      var elapsed := now - ss[qid].startTime;
      elapsed <= (ss[qid].timeLimit + ss[qid].bufferTime) as real
  }

  /** A freshly started question accepts submissions at its start exactly when its window is not negative. */
  lemma ActiveAtStart(ss: Sessions, qid: QuestionId, now: real, timeLimit: int, bufferTime: int)
    ensures IsQuestionActive(StartQuestion(ss, qid, now, timeLimit, bufferTime), qid, now)
        <==> timeLimit + bufferTime >= 0
  {
  }

  /** Once a question stops accepting, it never accepts again at a later time. */
  lemma InactiveStaysInactive(ss: Sessions, qid: QuestionId, t1: real, t2: real)
    requires t1 <= t2 && !IsQuestionActive(ss, qid, t1)
    ensures !IsQuestionActive(ss, qid, t2)
  {
  }

  /** Seconds since the session started; 0 when there is no session. */
  function GetElapsedTime(ss: Sessions, qid: QuestionId, now: real): (e: real)
    ensures qid !in ss ==> e == 0.0
    ensures qid in ss ==> ss[qid].startTime + e == now
  {
    if qid !in ss then 0.0 else now - ss[qid].startTime
  }

  /**
   * Seconds left before the time limit (the buffer is not included),
   * never negative; 0 when there is no session.
   */
  function GetRemainingTime(ss: Sessions, qid: QuestionId, now: real): (rem: real)
    ensures rem >= 0.0
    ensures qid !in ss ==> rem == 0.0
    ensures qid in ss ==> (rem > 0.0 <==> now < ss[qid].startTime + ss[qid].timeLimit as real)
    ensures rem > 0.0 ==> GetElapsedTime(ss, qid, now) + rem == ss[qid].timeLimit as real
    ensures qid in ss && now >= ss[qid].startTime ==> rem <= Max0(ss[qid].timeLimit as real)
  {
    if qid !in ss then 0.0
    else
      var remaining := ss[qid].timeLimit as real - GetElapsedTime(ss, qid, now);
      if remaining > 0.0 then remaining else 0.0
  }

  /** The ledger entry of `team` on `qid`, if the team has recorded an attempt there. */
  function GetTeamSubmission(ss: Sessions, qid: QuestionId, team: TeamId): (r: Option<TeamSubmission>)
    ensures r.Some? <==> qid in ss && team in ss[qid].ledger
    ensures r.Some? ==> r.value == ss[qid].ledger[team]
    ensures WellFormed(ss) && r.Some? ==> r.value.teamId == team && r.value.questionId == qid
  {
    if qid !in ss then None
    else if team in ss[qid].ledger then Some(ss[qid].ledger[team])
    else None
  }

  // ---------------------------------------------------------------------
  // Recording attempts
  // ---------------------------------------------------------------------

  /**
   * One attempt applied to a ledger entry: a timestamp is appended; a wrong
   * attempt counts against the team; a correct one counts, and only the
   * first correct attempt sets completion, its time and the score.
   */
  function RecordEntry(e: TeamSubmission, isCorrect: bool, score: Option<real>, now: real): (r: TeamSubmission)
    ensures r.teamId == e.teamId && r.questionId == e.questionId
    ensures r.submitTimes == e.submitTimes + [now]
    ensures !isCorrect ==> r.wrongCount == e.wrongCount + 1 && r.correctCount == e.correctCount
    ensures !isCorrect ==> r.isCompleted == e.isCompleted && r.firstCorrectTime == e.firstCorrectTime
                            && r.finalScore == e.finalScore
    ensures isCorrect ==> r.wrongCount == e.wrongCount && r.correctCount == e.correctCount + 1 && r.isCompleted
    ensures isCorrect && e.isCompleted ==> r.firstCorrectTime == e.firstCorrectTime && r.finalScore == e.finalScore
    ensures isCorrect && !e.isCompleted ==> r.firstCorrectTime == Some(now) && r.finalScore == score
    ensures EntryWellFormed(e) ==> EntryWellFormed(r)
  {
    var stamped := e.(submitTimes := e.submitTimes + [now]);
    if !isCorrect then stamped.(wrongCount := e.wrongCount + 1)
    else
      var counted := stamped.(correctCount := e.correctCount + 1);
      if e.isCompleted then counted
      else counted.(isCompleted := true, firstCorrectTime := Some(now), finalScore := score)
  }

  /**
   * Records an attempt of `team` on the started question `qid`, creating a
   * zeroed entry on the team's first attempt. Returns the new table and
   * the team's updated entry. Only that entry changes.
   */
  function RecordSubmission(ss: Sessions, qid: QuestionId, team: TeamId, isCorrect: bool, score: Option<real>,
                            now: real): (r: (Sessions, TeamSubmission))
    requires qid in ss
    ensures r.0.Keys == ss.Keys
    ensures forall q :: q in ss && q != qid ==> r.0[q] == ss[q]
    ensures r.0[qid] == ss[qid].(ledger := r.0[qid].ledger, arrival := r.0[qid].arrival)
    ensures r.0[qid].ledger.Keys == ss[qid].ledger.Keys + {team}
    ensures r.0[qid].ledger[team] == r.1
    ensures forall t :: t in ss[qid].ledger && t != team ==> r.0[qid].ledger[t] == ss[qid].ledger[t]
    ensures team in ss[qid].ledger ==> r.0[qid].arrival == ss[qid].arrival
    ensures team !in ss[qid].ledger ==> r.0[qid].arrival == ss[qid].arrival + [team]
    ensures r.1 == RecordEntry(if team in ss[qid].ledger then ss[qid].ledger[team] else ZeroEntry(team, qid),
                               isCorrect, score, now)
  {
    var s := ss[qid];
    var known := team in s.ledger;
    var entry := RecordEntry(if known then s.ledger[team] else ZeroEntry(team, qid), isCorrect, score, now);
    var s' := s.(ledger := s.ledger[team := entry], arrival := if known then s.arrival else s.arrival + [team]);
    (ss[qid := s'], entry)
  }

  /** A team's first attempt leaves exactly one timestamp, and a wrong first attempt counts once. */
  lemma FirstRecordIsFresh(ss: Sessions, qid: QuestionId, team: TeamId, isCorrect: bool, score: Option<real>,
                           now: real)
    requires qid in ss && team !in ss[qid].ledger
    ensures RecordSubmission(ss, qid, team, isCorrect, score, now).1.submitTimes == [now]
    ensures RecordSubmission(ss, qid, team, isCorrect, score, now).1.wrongCount == (if isCorrect then 0 else 1)
    ensures RecordSubmission(ss, qid, team, isCorrect, score, now).1.isCompleted == isCorrect
  {
  }

  /** Recording an attempt keeps the table well formed. */
  lemma RecordPreservesWellFormed(ss: Sessions, qid: QuestionId, team: TeamId, isCorrect: bool,
                                  score: Option<real>, now: real)
    requires WellFormed(ss) && qid in ss
    ensures WellFormed(RecordSubmission(ss, qid, team, isCorrect, score, now).0)
  {
    var r := RecordSubmission(ss, qid, team, isCorrect, score, now).0;
    var s := ss[qid];
    assert SessionWellFormed(qid, s);
    var s' := r[qid];
    if team !in s.ledger {
      assert team !in s.arrival;
      forall i, j | 0 <= i < j < |s'.arrival|
        ensures s'.arrival[i] != s'.arrival[j]
      {
        if j == |s.arrival| {
          assert s'.arrival[i] == s.arrival[i];
        } else {
          assert s'.arrival[i] == s.arrival[i] && s'.arrival[j] == s.arrival[j];
        }
      }
    }
    assert SessionWellFormed(qid, s');
    forall q | q in r
      ensures SessionWellFormed(q, r[q])
    {
      if q != qid {
        assert SessionWellFormed(q, ss[q]);
      }
    }
  }

  /** One call to the recorder: whether it was correct, the score it carried, and the clock reading. */
  datatype Attempt = Attempt(isCorrect: bool, score: Option<real>, at: real)

  /** An entry after a run of attempts, applied in order. */
  function Replay(e: TeamSubmission, attempts: seq<Attempt>): (r: TeamSubmission)
    ensures r.teamId == e.teamId && r.questionId == e.questionId
  {
    if |attempts| == 0 then e
    else
      var last := attempts[|attempts| - 1];
      RecordEntry(Replay(e, attempts[..|attempts| - 1]), last.isCorrect, last.score, last.at)
  }

  /** The position of the first correct attempt, if any. */
  function FirstCorrect(attempts: seq<Attempt>): (i: Option<nat>)
    ensures i.Some? ==> i.value < |attempts| && attempts[i.value].isCorrect
    ensures i.Some? ==> forall j :: 0 <= j < i.value ==> !attempts[j].isCorrect
    ensures i.None? ==> forall j :: 0 <= j < |attempts| ==> !attempts[j].isCorrect
  {
    if |attempts| == 0 then None
    else
      var init := FirstCorrect(attempts[..|attempts| - 1]);
      if init.Some? then init
      else if attempts[|attempts| - 1].isCorrect then Some(|attempts| - 1)
      else None
  }

  /** The number of wrong attempts in a run. */
  function WrongAttempts(attempts: seq<Attempt>): (n: nat)
    ensures n <= |attempts|
  {
    if |attempts| == 0 then 0
    else WrongAttempts(attempts[..|attempts| - 1]) + (if attempts[|attempts| - 1].isCorrect then 0 else 1)
  }

  /**
   * From a zeroed entry, a run of attempts leaves one timestamp per
   * attempt, counts exactly the wrong ones, and completes the team at the
   * first correct attempt with that attempt's time and score, which later
   * attempts never change.
   */
  lemma {:induction false} ReplayFreezesFirstCorrect(team: TeamId, qid: QuestionId, attempts: seq<Attempt>)
    ensures Replay(ZeroEntry(team, qid), attempts).submitTimes == seq(|attempts|, i requires 0 <= i < |attempts| => attempts[i].at)
    ensures Replay(ZeroEntry(team, qid), attempts).wrongCount == WrongAttempts(attempts)
    ensures Replay(ZeroEntry(team, qid), attempts).isCompleted <==> FirstCorrect(attempts).Some?
    ensures FirstCorrect(attempts).Some? ==>
              Replay(ZeroEntry(team, qid), attempts).firstCorrectTime == Some(attempts[FirstCorrect(attempts).value].at)
              && Replay(ZeroEntry(team, qid), attempts).finalScore == attempts[FirstCorrect(attempts).value].score
  {
    if |attempts| > 0 {
      var init := attempts[..|attempts| - 1];
      ReplayFreezesFirstCorrect(team, qid, init);
      var prev := Replay(ZeroEntry(team, qid), init);
      assert prev.submitTimes == seq(|init|, i requires 0 <= i < |init| => init[i].at);
      if FirstCorrect(init).Some? {
        assert init[FirstCorrect(init).value] == attempts[FirstCorrect(init).value];
      }
    }
  }

  // ---------------------------------------------------------------------
  // Stopping and resetting
  // ---------------------------------------------------------------------

  /** Closes submissions on `qid` and keeps its ledger; does nothing when there is no session. */
  function StopQuestion(ss: Sessions, qid: QuestionId): (r: Sessions)
    ensures r.Keys == ss.Keys
    ensures qid in ss ==> !r[qid].isActive && r[qid] == ss[qid].(isActive := false)
    ensures forall q :: q in ss && q != qid ==> r[q] == ss[q]
  {
    if qid in ss then ss[qid := ss[qid].(isActive := false)] else ss
  }

  /** A stopped question accepts nothing, whatever the clock says, and its ledger is kept. */
  lemma StoppedIsInactive(ss: Sessions, qid: QuestionId, now: real)
    ensures !IsQuestionActive(StopQuestion(ss, qid), qid, now)
    ensures qid in ss ==> StopQuestion(ss, qid)[qid].ledger == ss[qid].ledger
  {
  }

  /** Stopping keeps the table well formed. */
  lemma StopPreservesWellFormed(ss: Sessions, qid: QuestionId)
    requires WellFormed(ss)
    ensures WellFormed(StopQuestion(ss, qid))
  {
    var r := StopQuestion(ss, qid);
    forall q | q in r
      ensures SessionWellFormed(q, r[q])
    {
      assert SessionWellFormed(q, ss[q]);
    }
  }

  /** Empties the table and returns how many sessions it held. */
  function ResetAllQuestions(ss: Sessions): (r: (nat, Sessions))
    ensures r.0 == |ss.Keys|
    ensures r.1 == map[]
    ensures forall q, now :: !IsQuestionActive(r.1, q, now)
  {
    (|ss|, map[])
  }
}
