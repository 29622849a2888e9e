# Scoring server for a video-retrieval competition, in Dafny

This project models the core of a mock scoring server for a video-retrieval
competition. Teams answer questions of three task types:

- **KIS**: find a moment in a video.
- **QA**: answer a question and show where in the video the answer is.
- **TR**: list frames of a sequence of moments.

A question's ground truth is a scene, a video and a flat, ascending list of
points that pairs up into events. A submission names a scene, a video, a
list of values (milliseconds, or frame numbers for TR) and, for QA, an
answer text.

The model covers the following parts of the server.

- **Events** (`events.dfy`): pairing the points into events, and flattening them back.
- **Matching** (`matching.dfy`): the tolerance matcher of the current engine. It gives a
  distance-weighted quality to each (value, event) pair and greedily assigns each value
  to its best event. There is a recursive reference definition and loop implementations
  proved equal to it.
- **Scoring** (`scoring.dfy`):
  - the time factor;
  - the correctness factor;
  - the competition formula `max(0, pBase + (pMax - pBase)·fT - k·pPenalty) · cf`;
  - the scoring pipeline, with its scene/video gate and its QA answer gate.
- **ExactScoring** (`exact_scoring.dfy`): the earlier exact-match revision. A value matches
  an event only when it equals the event's start or end, and there is no gate.
- **LegacyScoring** (`legacy_scoring.dfy`): the oldest revision. The i-th value is scored
  against the i-th event by a linear decay from the event's midpoint. The per-event scores
  are then aggregated by mean, sum or minimum.
- **Text** and **Patterns** (`text.dfy`, `patterns.dfy`): the string primitives and the
  regular expressions the normalisers use:
  - Python's `strip`, `split` and `int`;
  - the QA and TR answer patterns, including the lazy answer group.
- **Normalizer** (`normalizer.dfy`): the three request normalisers. Each one turns the
  answers of the first answer set into a submission, or into the error that the source
  raises.
- **Session** (`session.dfy`): the question-session table. It covers:
  - starting, stopping and resetting questions;
  - the acceptance window;
  - elapsed and remaining time;
  - per-team attempt ledgers with a frozen first correct answer.
- **Leaderboard** (`leaderboard.dfy`): the per-question leaderboard, a stable sort by score
  (descending) and then time (ascending), and the status view of all sessions.
- **Submit** (`submit.dfy`): the submit endpoint's decision sequence. It is a function from
  the request, the configuration, the session table, the ground-truth table and the clock
  to a reply and the next session table.

Every figure is an exact `real`. The clock is an explicit `now` parameter.

The submit endpoint imports its normaliser and session manager from `app/core/normalizer.py`
and `app/core/session.py`. Neither file is part of this model. The model uses
`app/normalizer.py` and `app/session.py`, which have the same functions. One exception: the
QA normaliser of `app/normalizer.py` drops the answer text (see "## Findings"). The submit
path here uses the corrected QA normaliser. `Submit.AsWrittenQaSubmitIncorrect` states what
the endpoint answers with the normaliser as written.

## Model

| member | source | states |
|---|---|---|
| Events.PointsToEvents | app/utils.py:25-31 | an even point list becomes `|points|/2` events, event i being (points[2i], points[2i+1]) |
| Events.FlattenPointsToEvents | app/utils.py:27-29 | flattening the events of an even point list gives back the point list |
| Events.PointsToEventsFlatten | app/utils.py:27-29 | pairing the flattened points of any event list gives back the events |
| Events.AscendingGivesOrderedEvents | app/utils.py:7-31 | an ascending point list gives events whose start is at most their end |
| Events.PointsToEventsExample | app/utils.py:21-23 | [4890, 5000, 5001, 5020] pairs into (4890, 5000), (5001, 5020) |
| Models.GroundTruthEvents | app/core/scoring.py:347 | a ground truth has one event per pair of points |
| Matching.ProperEventDefined | app/core/scoring.py:78-88 | the quality is defined (no division by zero) for any event with start <= end and a positive tolerance |
| Matching.MatchScore | app/core/scoring.py:78-95 | the quality is 0 exactly when the value lies further from the event's centre than half its width plus the tolerance; otherwise it is in [0.5, 1]; it is 1 exactly at the centre of a window of positive width, and 0.5 exactly at the edge of the window (stated on doubled distances, which are integers) |
| Matching.QualityDecreasesWithDistance | app/core/scoring.py:89-95 | a value no further from the centre than another never gets a lower quality |
| Matching.MatchScoreExamples | app/core/scoring.py:57-67 | the documented qualities 1, 31/37, 49/74, 0.5 and 0 for the values 10025, 10037, 10050, 10062 and 10063 against the event 10000-10050 with tolerance 12 |
| Matching.BestPick | app/core/scoring.py:126-138 | a value is assigned to the first event with the strictly largest positive quality, or to none when every quality is 0 |
| Matching.PickFor | app/core/scoring.py:126-138 | over all events: the pick is an event index or -1; -1 exactly when every quality is 0; otherwise the picked quality is positive, at least every other quality, and strictly above every earlier event's |
| Matching.PickForIffSomePositive | app/core/scoring.py:126-138 | a value is assigned to an event exactly when some event gives it a positive quality, and then that event's quality is maximal |
| Matching.EventScores | app/core/scoring.py:139-142 | each event keeps the best quality among the values assigned to it, 0 when none was assigned |
| Matching.EventScoresBounded | app/core/scoring.py:139-142 | every kept quality is in [0, 1] |
| Matching.EventScoresKeepBest | app/core/scoring.py:139-142 | an event's kept quality is at least the quality of every value assigned to it |
| Matching.EventScoresWitnessed | app/core/scoring.py:139-142 | a positive kept quality is the quality of some value assigned to that event |
| Matching.CountPositiveIsCardinality | app/core/scoring.py:144 | the matched count is the number of events holding a positive quality |
| Matching.PositiveIndicesArePicked | app/core/scoring.py:139-144 | the matched events are exactly the events that some value was assigned to |
| Matching.CheckMatchWithTolerance | app/core/scoring.py:98-152 | no events gives (0, 0, 0); otherwise total is the event count, matched counts the events some value picked, and the average quality is the sum of kept qualities over all events (0 when nothing matched), in [0, 1] |
| Matching.MatchedIsPickedCount | app/core/scoring.py:126-144 | the matched count equals the number of distinct events some value picked |
| Matching.AllPickOneEvent | app/core/scoring.py:126-144 | when every value picks the same event, exactly one event is matched |
| Matching.GreedyLeavesMatchableEventUnmatched | app/core/scoring.py:126-144 | the greedy assignment can leave an event unmatched although a value could match it: two values that both prefer event 0 leave event 1 unmatched |
| Matching.ScanEvents | app/core/scoring.py:126-138 | the scanning loop returns the reference assignment of a value |
| Matching.RecordBestScores | app/core/scoring.py:126-142 | the loop over values builds the reference per-event best qualities |
| Matching.CountAndSum | app/core/scoring.py:144-149 | the counting loop returns the number of positive qualities and their sum |
| Matching.MatchWithTolerance | app/core/scoring.py:98-152 | the loop implementation returns exactly the reference matcher's outcome |
| Scoring.TimeFactor | app/core/scoring.py:38-40 | the time factor is 0 from the time limit on, and otherwise decreases linearly from 1 at time 0; it lies in [0, 1] for non-negative times |
| Scoring.TimeFactorNonIncreasing | app/core/scoring.py:25-40 | a later submission never gets a larger time factor |
| Scoring.TimeFactorExamples | app/core/scoring.py:38-40 | with a 300 s limit: 1 at 0 s, 0.5 at 150 s, and 0 at 300, 350 and 360 s |
| Scoring.Percentage | app/core/scoring.py:184 | 0 when there are no events; at least 100 exactly when all events are matched; at least 50 exactly when at least half are |
| Scoring.PercentageThresholds | app/core/scoring.py:193-200 | the TR percentage bands correspond to the matched/total thresholds 1 and 1/2 |
| Scoring.CorrectnessFactor | app/core/scoring.py:155-202 | 0 with no events or an unknown task type; KIS and QA get the average quality only when every event is matched, and 0 otherwise; TR gets the full average when all events are matched, half of it from half on, and 0 below half |
| Scoring.CorrectnessFactorBounds | app/core/scoring.py:155-202 | the correctness factor stays in [0, 1] |
| Scoring.CorrectnessFactorExamples | app/core/scoring.py:186-200 | KIS/QA partial matches give 0; TR gives 1·avg for all events, 0.5·avg for half or more, and 0 below half |
| Scoring.CompetitionScore | app/core/scoring.py:250-253 | the formula is never negative for a non-negative correctness factor, is 0 when the factor is 0, and for a positive factor is 0 exactly when the penalty reaches the base score |
| Scoring.FinalScore | app/core/scoring.py:205-265 | the reported time factor, penalty and correctness factor are the inputs' figures, and the score is the competition formula applied to them |
| Scoring.FinalScoreAtMostPMax | app/core/scoring.py:238-253 | for a positive time limit, a submission at or after the start (so the time factor is at most 1), a non-negative penalty, pBase <= pMax with pMax >= 0, and a match quality in [0, 1], the score is in [0, pMax] |
| Scoring.FinalScoreNonIncreasingInWrongCount | app/core/scoring.py:238-253 | more earlier wrong attempts never raise the score |
| Scoring.FinalScoreNonIncreasingInTime | app/core/scoring.py:238-253 | a later submission never scores higher, all else equal |
| Scoring.CompetitionNonIncreasingInWrongCount | app/core/scoring.py:244-250 | the formula is non-increasing in the wrong-attempt count for a non-negative penalty |
| Scoring.CompetitionNonDecreasingInTimeFactor | app/core/scoring.py:244-250 | the formula is non-decreasing in the time factor when pBase <= pMax |
| Scoring.CorrectnessFactorNonNegative | app/core/scoring.py:155-202 | the correctness factor is never negative, so neither is the score |
| Scoring.FinalScoreExample | app/core/scoring.py:238-253 | a full KIS answer at time 0 with two wrong attempts scores 80; fifteen wrong attempts bring it to 0; a KIS answer matching 1 of 2 events scores 0 |
| Scoring.Tolerance | app/core/scoring.py:21-22 | TR uses the frame tolerance (12), every other type the millisecond tolerance (2500); both are positive |
| Scoring.MatchAgainst | app/core/scoring.py:341-354 | the matcher sees the ground truth's events with its type's tolerance; total is the event count and matched is at most total |
| Scoring.ScoreSubmission | app/core/scoring.py:268-367 | a wrong scene or video scores 0; a QA question with an expected answer scores 0 when the answer is missing or differs in any character; otherwise the result is the formula on the match; a positive correctness factor means both gates passed and something matched |
| ExactScoring.FirstHit | app/scoring.py:55-61 | a value hits the first event whose start or end it equals, or none |
| ExactScoring.MatchedEvents | app/scoring.py:52-63 | the matched set is the set of events hit by some value |
| ExactScoring.MatchedEventsMembership | app/scoring.py:52-63 | an event is matched exactly when it is the first event hit by some value |
| ExactScoring.CheckExactMatch | app/scoring.py:36-63 | matched counts distinct matched events, is at most total, and total is the event count |
| ExactScoring.CheckExactMatchExamples | tests/test_scoring.py:34-67 | perfect, partial, no match, and two values on one event counting once |
| ExactScoring.AllPointsMatchAllEvents | app/scoring.py:52-63 | submitting every start point matches every event |
| ExactScoring.CorrectnessFactorExact | app/scoring.py:66-103 | the factor is 0, 0.5 or 1: 1 exactly for a full match; KIS/QA otherwise 0; TR 0.5 from half on and 0 below |
| ExactScoring.CorrectnessFactorExactExamples | tests/test_scoring.py:70-115 | the factors in the revision's tests for full, partial and low matches of each type |
| ExactScoring.FinalScoreExact | app/scoring.py:106-161 | the exact revision's figures follow the same competition formula with its own correctness factor |
| ExactScoring.FinalScoreExactExamples | tests/test_scoring.py:118-201 | the final scores 100, 80, 75, 50, 65, 0, 0 and 50 of the revision's tests |
| ExactScoring.FinalScoreExactPartialExample | tests/test_scoring.py:181-192 | a TR half match at 100 s with one wrong attempt scores 110/3, between 36 and 37 |
| ExactScoring.ScoreSubmissionExact | app/scoring.py:164-200 | the exact revision pairs the points, matches exactly and applies its formula |
| ExactScoring.ExactScoringIgnoresIdentity | app/scoring.py:184-200 | the exact revision gives the same result whatever the submission's scene, video and answer |
| LegacyScoring.DecayScore | app/scoring_old.py:40-47 | the decay score is never negative, is 0 outside the tolerance-widened window, and never exceeds the maximum score |
| LegacyScoring.DecayCloserScoresHigher | app/scoring_old.py:40-47 | a value closer to the midpoint never scores lower |
| LegacyScoring.DecayPeaksAtMidpoint | app/scoring_old.py:40-47 | a value at the midpoint of the event gets the full maximum score |
| LegacyScoring.ScoreEventFrame | app/scoring_old.py:50-83 | outside the tolerance-widened frame window the score is 0; inside it is the decay by frame distance from the midpoint, never negative |
| LegacyScoring.ScoreEventMs | app/scoring_old.py:9-47 | the millisecond scorer is 0 outside a window widened by tolerance·1000/fps ms, and otherwise decays by the distance in frames |
| LegacyScoring.MsScorerIsFrameRuleInFrames | app/scoring_old.py:9-83 | the millisecond scorer is the frame scorer applied to times converted to frames |
| LegacyScoring.WindowInFrames | app/scoring_old.py:28-37 | the millisecond window test is the frame window test on converted times |
| LegacyScoring.ScoreEventMsExamples | app/scoring_old.py:9-47 | at 25 fps with a 12-frame tolerance, for an event of 1000-1040 ms: 100 at the midpoint, 99 one frame away, 87.5 at 12.5 frames, and 0 one millisecond past the window |
| LegacyScoring.ScoreEvent | app/scoring_old.py:125-131 | KIS and QA values are scored in milliseconds, every other type in frames |
| LegacyScoring.PerEventScores | app/scoring_old.py:114-133 | one score per ground-truth event; event i is scored against value i, and 0 when there are fewer values |
| LegacyScoring.ExtraValuesIgnored | app/scoring_old.py:114-123 | values beyond the number of events do not change the scores |
| LegacyScoring.Aggregate | app/scoring_old.py:135-146 | no scores give 0; "sum" adds, "min" takes the smallest, and "mean" or any other word averages |
| LegacyScoring.ScoreSubmissionLegacy | app/scoring_old.py:86-157 | the legacy score aggregates the per-event scores of the paired points |
| LegacyScoring.AggregateNonNegative | app/scoring_old.py:135-146 | every aggregation of non-negative scores is non-negative |
| LegacyScoring.AggregationOrder | app/scoring_old.py:135-146 | for non-negative scores, min <= mean <= sum |
| LegacyScoring.MeanBetweenExtremes | app/scoring_old.py:139 | the mean lies between the smallest and the largest score |
| Text.Strip | app/normalizer.py:52 | stripping keeps the part between the whitespace ends, which neither starts nor ends with whitespace |
| Text.StripIdempotent | app/normalizer.py:52 | stripping twice is stripping once |
| Text.SplitOn | app/normalizer.py:148 | splitting gives at least one piece, and no piece contains the separator |
| Text.JoinSplit | app/normalizer.py:148 | joining the pieces of a split with the separator gives back the text |
| Text.SplitJoin | app/normalizer.py:148 | splitting a join of separator-free pieces gives back the pieces |
| Text.SplitFirst | app/normalizer.py:55-60 | a text containing the separator splits at its first occurrence; the head has no separator |
| Text.SplitFirstJoin | app/normalizer.py:58-60 | a separator-free head, the separator and a tail split back into head and tail |
| Text.ParseInt | app/normalizer.py:65 | integer parsing accepts an optional sign followed by digits, and nothing else |
| Text.ParseShow | app/normalizer.py:148 | parsing the decimal rendering of any integer gives back that integer |
| Patterns.AlnumRunSpec | app/normalizer.py:122 | the alphanumeric group stops at the end of the text or at the first non-alphanumeric character |
| Patterns.LineRunSpec | app/normalizer.py:122 | the final `.+` group reaches the end of the text or the first newline |
| Patterns.MatchIdTail | app/normalizer.py:197 | the shared `<scene>_<video>-<rest>` tail: no match unless an alphanumeric character comes first; a match has three non-empty groups whose text fits inside the input from the start position |
| Patterns.MatchIdTailSound | app/normalizer.py:122 | whatever the tail matcher returns is a reading of the text by `([A-Za-z0-9]+)_([A-Za-z0-9]+)-(.+)` |
| Patterns.MatchIdTailComplete | app/normalizer.py:122 | whenever the tail pattern can read the text, the matcher finds exactly that reading |
| Patterns.MatchTr | app/normalizer.py:197-201 | a TR text matches exactly when it starts with `TR-` and the tail matches right after it, and the match is that tail |
| Patterns.MatchTrSound | app/normalizer.py:197-201 | a matched TR text is `TR-` followed by a reading of the tail pattern |
| Patterns.MatchTrWritten | app/normalizer.py:197-205 | a TR text written from alphanumeric ids and a newline-free rest is read back as those groups |
| Patterns.LazyEndSound | app/normalizer.py:122 | the lazy answer group takes the first end after which the rest matches, or fails when none fits |
| Patterns.MatchQa | app/normalizer.py:122-134 | a text not starting with `QA-` does not match; a match has a non-empty answer, and `QA-`, the answer, a separator and the tail fit in the text |
| Patterns.MatchQaSound | app/normalizer.py:122-134 | a QA match is `QA-`, the shortest answer that lets the tail match, `-`, and the tail |
| Patterns.MatchQaIds | app/normalizer.py:131-133 | the scene and video of a QA match are non-empty alphanumeric runs |
| Patterns.MatchQaWritten | app/normalizer.py:122-134 | a QA text written from an answer without `-` is read back as its groups |
| Patterns.LazyAnswerCutsShort | app/normalizer.py:122 | an answer written as `p-<scene>_<video>-<more>` is cut back to `p` by the lazy group, and the rest ends up in the tail |
| Normalizer.ParsePiece | app/normalizer.py:148 | one piece: it parses exactly when it is blank or an integer once stripped; a blank piece gives no value, an integer piece gives that integer, and anything else is the not-an-integer error |
| Normalizer.ParsePieces | app/normalizer.py:148-149 | the only error is not-an-integer; on success every piece is blank or an integer, and the values equal the reference reading `Ints`: drop the blank pieces, then take each remaining piece's integer, in order |
| Normalizer.ParsePiecesOk | app/normalizer.py:148 | piece parsing succeeds exactly when every non-blank piece is an integer |
| Normalizer.CommaInts | app/normalizer.py:148 | a comma-separated list parses exactly when every piece between commas is blank or an integer, and then gives the reference reading `Ints` of those pieces; the only error is not-an-integer |
| Normalizer.CommaIntsRender | app/normalizer.py:148 | the comma rendering of any integer list parses back into that list |
| Normalizer.StartValues | app/normalizer.py:62-65 | the read succeeds exactly when every `start` field is blank or an integer, and then gives the reference reading `Ints` of the `start` fields (the integers of the non-blank ones, in answer order); the only error is not-an-integer |
| Normalizer.NormalizeKis | app/normalizer.py:9-76 | no answers, a first media name without `_`, an unparsable start, and a `_` at either end of the name (empty scene or video) each give their own error; success exactly when none applies, carrying the first name split at its first `_` and the reference reading `Ints` of the `start` fields |
| Normalizer.KisOf | app/normalizer.py:49-76 | a stripped name without `_` is refused; otherwise a bad start value is refused; otherwise a `_` at either end of the name gives the empty scene-or-video error; success exactly when none applies, and then the name is `<scene>_<video>` split at its first `_`, with the parsed values and no answer |
| Normalizer.NormalizeKisWritten | app/normalizer.py:49-76 | a request of one answer per value, each naming `<scene>_<video>`, is read back as that scene, video and values |
| Normalizer.NormalizeKisReadsOnlyFirstNameAndStarts | app/normalizer.py:49-65 | only the first answer's media name and the `start` fields are read; later names and `end` fields play no part |
| Normalizer.QaStep | app/normalizer.py:124-149 | one turn of the loop succeeds exactly when the answer has the QA shape with readable times and agrees with the scene and video read so far; the errors come in the source's order (bad format, then scene mismatch, then video mismatch, then a bad time); success keeps this answer's ids and text and appends its times to the values so far |
| Normalizer.QaLoop | app/normalizer.py:124-149 | a successful loop has a state exactly when there was at least one answer; a failed loop reports one of the four per-answer errors |
| Normalizer.QaLoopSound | app/normalizer.py:124-149 | when the QA loop succeeds, every answer matched, all agree on the first scene and video, the answer text is the last one's, and the values are every answer's times concatenated in order (`QaTimes`) |
| Normalizer.QaLoopComplete | app/normalizer.py:124-149 | when every answer matches with readable times and agrees with the first, the QA loop succeeds |
| Normalizer.NormalizeQa | app/normalizer.py:79-160 | no answers is refused as such; a success carries the question id, the QA type and an answer text (the corrected behaviour of the Findings row) |
| Normalizer.QaSubmission | app/normalizer.py:151-160 | the loop's error passes through; no state or an empty scene or video gives the empty-id error; a success is exactly the loop state as a QA submission, with non-empty ids |
| Normalizer.NormalizeQaAccepts | app/normalizer.py:111-160 | the QA normaliser accepts exactly the non-empty requests whose answers all match and agree; it keeps the first scene and video, every answer's times concatenated in order, and the last answer text, and its empty-id error can never fire |
| Normalizer.NormalizeQaWritten | app/normalizer.py:79-160 | a single written QA answer is read back as its answer, scene, video and values |
| Normalizer.NormalizeQaTwoWritten | app/normalizer.py:122-149 | two written answers on the same item are read back with their times concatenated |
| Normalizer.NormalizeQaSceneMismatch | app/normalizer.py:137-140 | two answers naming different scenes are refused with a scene mismatch |
| Normalizer.NormalizeQaAsWritten | app/normalizer.py:131-160 | as the source builds it, the QA submission carries no answer text, but succeeds exactly when the corrected normaliser does |
| Normalizer.AsWrittenQaNeverPassesAnswerGate | app/core/scoring.py:307-338 | as written, a QA question with an expected answer never passes the answer gate, whatever the request |
| Normalizer.AsWrittenQaExample | app/normalizer.py:131-160 | a request with the expected answer, scene, video and starts is still refused as missing its answer |
| Normalizer.NormalizeTr | app/normalizer.py:163-219 | no answers, more than one answer, and a text without the TR shape each give their own error; for a matched text, an unparsable frame gives not-an-integer and a frame list with no frame gives the no-frames error; success carries the matched ids and the reference reading `Ints` of the frame pieces, at least one |
| Normalizer.NormalizeTrWritten | app/normalizer.py:193-219 | a written TR answer is read back as its scene, video and frames |
| Normalizer.NormalizeTrBlankFrames | app/normalizer.py:208-211 | a well-shaped TR text whose frame list is only commas is refused for having no frames |
| Session.StartQuestion | app/session.py:64-88 | starting installs an active session with an empty ledger at `now`, replacing any earlier one; other questions are untouched |
| Session.StartPreservesWellFormed | app/session.py:64-88 | starting a question keeps the table well formed |
| Session.GetQuestionSession | app/session.py:91-93 | a session is returned exactly when the question has one |
| Session.IsQuestionActive | app/session.py:96-110 | a question accepts submissions exactly when it has a session that is active and within time limit plus buffer |
| Session.ActiveAtStart | app/session.py:64-110 | a freshly started question accepts at its start time exactly when limit plus buffer is non-negative |
| Session.InactiveStaysInactive | app/session.py:96-110 | once a question stops accepting, it never accepts again at a later time |
| Session.GetElapsedTime | app/session.py:113-118 | elapsed time is the time since the start, and 0 for a question without a session |
| Session.GetRemainingTime | app/session.py:121-129 | remaining time is never negative; it is positive exactly before the limit, and then elapsed plus remaining is the limit |
| Session.GetTeamSubmission | app/session.py:132-137 | a ledger entry is returned exactly when the question and the team have one |
| Session.RecordEntry | app/session.py:170-182 | every attempt adds a timestamp; a wrong one counts one more wrong; a correct one completes the team, and only the first correct attempt sets the time and the score |
| Session.RecordSubmission | app/session.py:140-182 | recording changes only this team's entry on this question, creating it fresh when missing |
| Session.FirstRecordIsFresh | app/session.py:160-168 | a team's first attempt starts from an empty entry |
| Session.RecordPreservesWellFormed | app/session.py:140-182 | recording keeps one timestamp per attempt, and keeps completion equivalent to having a correct attempt and a first-correct time |
| Session.ReplayFreezesFirstCorrect | app/session.py:173-180 | after any sequence of attempts, the score and time are those of the first correct attempt, and the wrong count is the number of wrong attempts |
| Session.StopQuestion | app/session.py:185-190 | stopping marks only that session inactive and keeps its ledger |
| Session.StoppedIsInactive | app/session.py:185-190 | a stopped question accepts nothing at any time |
| Session.StopPreservesWellFormed | app/session.py:185-190 | stopping keeps the table well formed |
| Session.ResetAllQuestions | app/session.py:241-246 | reset reports the number of sessions and leaves no question accepting |
| Leaderboard.Candidates | app/session.py:204-214 | every row is the standing of a completed team with a score, and every such team has its row |
| Leaderboard.Insert | app/session.py:217 | inserting a row lengthens the rows by one, and the result holds the new row and every old one |
| Leaderboard.SortStandings | app/session.py:217 | the sorted rows are as many as the input and hold every input row |
| Leaderboard.SortStandingsPermutes | app/session.py:217 | sorting is a permutation of the rows |
| Leaderboard.SortStandingsSorted | app/session.py:217 | the sorted rows go by score descending, then time ascending |
| Leaderboard.SortStandingsStable | app/session.py:217 | rows with equal score and time keep their relative order |
| Leaderboard.Ranked | app/session.py:219-221 | the ranks are 1, 2, ... in board order |
| Leaderboard.QuestionLeaderboard | app/session.py:193-223 | a question without a session has an empty board; otherwise the board has no more rows than teams on record, and row i has rank i + 1 |
| Leaderboard.QuestionLeaderboardOrdered | app/session.py:193-223 | a question without a session has an empty board; otherwise the board is sorted and ranked from 1 |
| Leaderboard.QuestionLeaderboardRows | app/session.py:204-214 | every row is a completed team with its score, time taken, attempt count and wrong count |
| Leaderboard.QuestionLeaderboardComplete | app/session.py:204-214 | every completed team with a score appears on the board |
| Leaderboard.QuestionLeaderboardOneRowPerTeam | app/session.py:204-217 | no team has two rows on the board, because each team is listed once in the ledger and the sort only permutes rows |
| Leaderboard.LeaderboardTiesKeepLedgerOrder | app/session.py:205-217 | teams tied on score and time appear in the order they first submitted |
| Leaderboard.AllSessionsStatus | app/session.py:226-238 | one status per session, with its acceptance, elapsed time, remaining time (exactly the remaining-time figure of the session manager), team count and completed-team count |
| Leaderboard.StatusCompletedAtMostTotal | app/session.py:236 | the completed-team count never exceeds the team count |
| Submit.NormalizeFor | app/api/submission.py:109-123 | the normaliser is chosen by the ground truth's type; an unknown type is refused, and a normaliser error becomes an invalid-format reply |
| Submit.PriorWrongCount | app/api/submission.py:126-127 | the penalty count is the team's recorded wrong count, 0 before its first attempt |
| Submit.Gate | app/api/submission.py:57-101 | the refusals before normalising: no answer sets, then no active question, then a closed question, then a completed team; the request passes exactly when none applies |
| Submit.ScoreAndRecord | app/api/submission.py:126-188 | the submission is scored with the elapsed time and prior wrong count; it is correct exactly when the factor is positive; full exactly when the factor is 1; it is recorded with its score only when correct |
| Submit.ScoreAndRecordLedgerEffect | app/api/submission.py:140-188 | a scored submission adds one attempt to the team's entry only; a wrong one reports the new wrong count; a first correct one freezes the score and time |
| Submit.HandleSubmit | app/api/submission.py:57-146 | a reply that is not a score leaves the table as it was; a scored reply comes only after the gate lets the request through and the active question has a ground truth; a missing ground truth after the gate is answered question-not-found with the table unchanged |
| Submit.AsWrittenQaSubmitIncorrect | app/api/submission.py:140-188 | with the QA normaliser as written, a QA question that expects an answer is, whenever scored, answered incorrect with one more wrong attempt, and the table records a wrong attempt |
| Submit.SubmitUnscoredKeepsTable | app/api/submission.py:57-123 | every refusal leaves the session table unchanged |
| Submit.SubmitScoredOnlyAfterChecks | app/api/submission.py:57-146 | a submission is scored only after every gate passed, the question was found and the request normalised |
| Submit.SubmitRefusalsInOrder | app/api/submission.py:57-123 | the gate's refusal, a missing question and a normaliser error are each reported in that order |
| Submit.SubmitInactiveRefused | app/api/submission.py:76-88 | a closed question is refused with the elapsed time and the session's limits, and 300 and 10 when there is no session |
| Submit.SubmitAfterCompletion | app/api/submission.py:90-101 | a completed team is answered with its frozen score and completion time, and nothing is recorded |
| Submit.SubmitPreservesWellFormed | app/api/submission.py:23-203 | every submission keeps the session table well formed |
| Submit.CorrectCompletesTeam | app/api/submission.py:140-169 | after a correct submission the team is completed with that score and time |
| Submit.CorrectThenFrozen | app/api/submission.py:90-101 | after a correct submission, every later one while the question accepts gets back the first score and time, and records nothing |

## Left out

- Floating point and `round`: every figure is an exact real. The reported figures that the source rounds to two decimals are not rounded.
- The leaderboard sorts on the exact time taken, not on the time rounded to two decimals. Teams whose times differ below a hundredth of a second are ordered by time here, but by ledger order in the source.
- Submit.ScoreAndRecord: full and partial are told apart on the exact correctness factor. The source compares the factor rounded to four decimals (`app/core/scoring.py:257`, `app/api/submission.py:150`), so a factor of 0.99995 or more is full there and partial here; for example a KIS event [1000, 11001] and the value 6000 give a factor just below 1. Likewise a positive factor below 0.00005 rounds to 0, which the source answers as incorrect (`app/api/submission.py:142`). The reported and recorded score is the exact one, not the one rounded to two decimals (`app/core/scoring.py:256`, `app/api/submission.py:146`).
- Leaderboard.SortStandings: sorts on the exact score. The source records the score rounded to two decimals (`app/core/scoring.py:256`, `app/api/submission.py:146`) and sorts on that (`app/session.py:217`), so two scores that round to the same figure tie there and go by time, while here the larger exact score goes first.
- Submit.NormalizeFor: the QA branch calls the corrected normaliser `Normalizer.NormalizeQa` of the "## Findings" row, not the one `app/normalizer.py:131-160` writes. With the file as written, a QA question with an expected answer is always answered incorrect and counts a wrong attempt; `Submit.AsWrittenQaSubmitIncorrect` states that path. `Submit.HandleSubmit` and the lemmas about it inherit the corrected behaviour.
- Scoring.TimeFactor: a time limit of 0 with a negative elapsed time divides by zero in the source. The model requires that this case does not occur, and the submit path reports it as `InternalError` without recording anything.
- Text.Strip: only ASCII whitespace and the ASCII separator characters are stripped. Unicode spaces and the other Unicode corner cases of Python's `str.strip` and `int` are not modelled; for example, `int` also accepts underscores and non-ASCII digits.
- Normalizer.NormalizeKis: JSON navigation is not modelled. The input is the list of answers of the first answer set, and a missing field reads as "" as `answer.get(key, "")` gives it. A field present with a value that is not a string is outside the model, in all three normalisers: there `.strip()` raises (`app/normalizer.py:52`, `app/normalizer.py:63`, `app/normalizer.py:125`, `app/normalizer.py:193`) and the endpoint answers "Error processing submission" through its generic handler (`app/api/submission.py:121-123`).
- The generic exception branch of each normaliser is not modelled. The source catches it in the submit endpoint (`app/api/submission.py:121-123`) and reports it like a format error.
- HTTP, logging, the request's client address and the diagnostic message strings are not modelled. The replies are constructors that carry the figures the source reports.
- The per-request configuration file read and the global dictionaries are not modelled. The configuration, the session table and the ground-truth table are explicit inputs and outputs. The clock is the `now` parameter.
- Concurrency between requests is not modelled.
- `initialize_fake_teams` (`app/session.py:14-61`) is not modelled. It generates decorative random teams, so randomness is outside the model.
- Leaderboard.AllSessionsStatus returns a map keyed by question id. The source returns a list in dictionary order.
- Team registry, YAML/CSV ground-truth loading and the other endpoints are not modelled. The loader is only assumed to give an even, ascending point list.
- `app/models.py` is not used for the records. It lacks fields that the scoring engine and the session manager use (`scene_id` and `answer` on submissions, `answer` on ground truths), so the records follow those users.
- LegacyScoring.ScoreEvent: the revision's docstrings promise a score falling "to 0 at range boundaries". The code subtracts `decay_per_frame` per frame and clamps at 0; the model follows the code.
- An unknown task type in the legacy revision falls to the frame scorer, as the code's `else` does.

## Findings

| source | as written | input that shows it | evidently intended | confidence | as-written member | corrected member |
|---|---|---|---|---|---|---|
| app/normalizer.py:131-160 | the QA normaliser reads the answer group into `answer_text` but never puts it into the submission it returns, so the scoring engine's QA gate (`app/core/scoring.py:307-338`) sees no answer and scores 0 | a QA question whose ground truth has answer `A`, scene `L26`, video `V017` and points `[4890, 5000]`, submitted as the single answer `QA-A-L26_V017-4890` | the submission carries the answer text (the last answer's, as the loop leaves it), so that a correct answer passes the gate | not executed | Normalizer.NormalizeQaAsWritten, Normalizer.AsWrittenQaNeverPassesAnswerGate, Normalizer.AsWrittenQaExample, Submit.AsWrittenQaSubmitIncorrect | Normalizer.NormalizeQa, Normalizer.NormalizeQaWritten |
