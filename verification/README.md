# MikanJudge, modelled and proved in Dafny

MikanJudge is an online judge: people submit programs to contest problems, a pool of workers runs each
program in a sandbox against the test cases, and the results feed a standings page. This project models
the parts of it whose correctness is not obvious from one function body, and proves what those parts
promise for every input, every run and every interleaving.

`dafny verify dfyconfig.toml` checks the whole project.

## Contents

| file | what it models |
|---|---|
| `Ranking.dfy`, `RankPass.dfy` | the sort key and comparator of the standings, `fmt_elapsed`, the single pass that numbers the sorted rows, and competition ranking as its specification |
| `SubmissionLog.dfy` | the submissions table as a log; the two grouping queries |
| `Standings.dfy`, `StandingsProperties.dfy`, `StandingsExamples.dfy` | the aggregation of query rows into standings rows, exact and heuristic; what a page says about the log and what it does not depend on; logs on which ranks or order are not what one would expect |
| `JudgeTypes.dfy`, `Judge.dfy`, `JudgeProperties.dfy` | statuses and their stored text, the `judge` procedure with its accumulating loop and its exits, its declarative reading, the stored verdict list and the `k/n` summary |
| `WorkerPool.dfy`, `JudgedPool.dfy` | handlers, the bounded queue, the shared receiver and any number of workers as a step system; the same with the jobs of `Judge` |
| `Runner.dfy`, `Pipes.dfy` | the parent of a sandboxed process: polling against the deadline, the verdict, the stdin writer and the two draining threads against an arbitrary child |
| `Cooldown.dfy`, `Pagination.dfy`, `ScoreText.dfy` | the submit cooldown, the page strip and page slices, `format_score` |
| `XorShift.dfy`, `MaxCut.dfy` | the max-cut scorer: its generator, its graph and its rounded score |
| `Basics.dfy`, `Decimal.dfy`, `Arithmetic.dfy` | options, decimal printing and parsing, facts about division |

What the operating system, the database, the compiler, the scorer process and the clock do is a
parameter or a nondeterministic choice, so the theorems hold whatever they answer. Judging a job is a
function of the job and of a `World` holding all those answers. Hash-map iteration order is an arbitrary
choice of the next key. Every statement to the database may fail.

## What the proofs found

- Heuristic ties use a tolerance of `f64::EPSILON` around the first row of a group. A page shows
  competition ranks if and only if no two users' totals are different but within that tolerance
  (`HeuristicPageRankedIff`). In any contest with one problem, two users scoring 1 and the next larger
  `f64` share rank 1 (`NeighboursShareRank`). What a rank means without any such condition is
  `HeuristicPageRefinesLog`.
- In an exact contest every user's row, rank and cells are fixed by the log, but the order of the page is
  fixed if and only if no two users share both the total and the instant of the last solve
  (`ExactPageUniqueIff`). Two users accepted on a problem at one instant may be listed either way round
  (`SameInstantSwaps`).
- The problem statement of max-cut allows seed 0. The generator maps 0 to 0, so every edge of that graph
  joins vertices 0 and 1 with weight 1 (`SeedZeroRepeatsOneEdge`, `SeedZeroScore`).
- Two accepted submissions are certain to be a cooldown apart if and only if the store keeps the time of
  the first and the session can be read for the second; both failures are ignored by the code
  (`SpacingHoldsIff`, `LostTimeAllowsAnother`, `FailedReadAllowsAny`). Exactly when a request is accepted
  is `AcceptedIff`. For requests that overlap, a save made on an older record takes recorded times away,
  even of the other class (`OverlappingSaveLosesTime`); nothing is ever forgotten if and only if no two
  requests overlap (`NothingForgottenIff`).
- A stored list of verdicts reads back unchanged if and only if each score in it is finite and comes back
  from its decimal form (`StoredListRoundTripIff`). The `k/n` summary is right either way
  (`SummaryAgreesWithStatus`).
- The score of a heuristic submission is finite if and only if each case's score is and no running total
  leaves the range of an `f64` (`ScoreIsFiniteIff`); two finite scores can overflow
  (`FiniteScoresCanOverflow`).
- The statement of max-cut rounds "to the nearest integer"; the code rounds halves to the even integer.
  The model follows the code.

## Model

| member | source | states |
|---|---|---|
| `Decimal.DecIsCanonical` | `src/api/handlers.rs:1307` | a number is printed without leading zeros |
| `Ranking.ElapsedCounts` | `src/api/handlers.rs:1427-1430` | the seconds s satisfy s · 10^9 ≤ nanoseconds passed < (s + 1) · 10^9, and are zero before the start |
| `Ranking.ElapsedMonotone` | `src/api/handlers.rs:1427-1430` | truncating an instant to whole seconds since the start, cut off at zero, keeps the order of instants |
| `Ranking.FmtElapsedReads` | `src/api/handlers.rs:1303-1308` | the text splits at its colons into hours, minutes and seconds, the last two below sixty, that add up to the time |
| `Ranking.ClockSplitsOnce` | `src/api/handlers.rs:1307` | such a text splits in only one way |
| `Ranking.FmtElapsedInjective` | `src/api/handlers.rs:1303-1308` | two numbers of seconds that print alike as `h:mm:ss` are equal |
| `Ranking.StringOrder` | `src/api/handlers.rs:1456` | the string order used for usernames is total, antisymmetric and transitive |
| `Ranking.StringLessIff` | `src/api/handlers.rs:1456` | a username comes first if and only if it is a proper prefix or has the smaller character at the first difference |
| `Ranking.StrictlyBeforeIff` | `src/api/handlers.rs:1448-1458` | a row comes strictly first if and only if it has more points, or as many and an earlier last solve, or as many and neither has one and the smaller username |
| `Ranking.CompareIsTotalPreorder` | `src/api/handlers.rs:1448-1458` | the comparator is reflexive, its reversal is itself with the arguments exchanged, and it is transitive, for all rows |
| `Ranking.InsertSorts` | `src/api/handlers.rs:1448-1458` | inserting a row into a sorted list gives a sorted permutation |
| `Ranking.SortSorts` | `src/api/handlers.rs:1448-1458` | sorting gives a permutation of the rows in which no row is greater than a later one |
| `RankPass.CloseIff` | `src/api/handlers.rs:1464-1465` | two scores count as the same exactly when they are within 2^-52 |
| `RankPass.NextGroup` | `src/api/handlers.rs:1464-1471` | one round of the loop keeps the memory of the current group right and gives the row the rank of that group's first row |
| `RankPass.AssignRanks` | `src/api/handlers.rs:1460-1472` | the mutating loop leaves every row as it was except for its rank, which is one more than the index of the row that opened its group |
| `RankPass.SortedDescends` | `src/api/handlers.rs:1427-1458` | rows sorted by raw timestamp are also in order of the displayed key: no row is strictly ahead of an earlier one by points and whole seconds |
| `RankPass.RunStartSplits` | `src/api/handlers.rs:1460-1472` | in sorted keys, exactly the rows before the run of equal keys are strictly ahead |
| `RankPass.LeaderIsRunStart` | `src/api/handlers.rs:1460-1472` | with separated scores, the row that opened a row's group is the first row with the same key, although the loop compares rendered strings with the group's first row only |
| `RankPass.ShownTimeReads` | `src/api/handlers.rs:1427-1430` | the time shown reads as hours, minutes and seconds that are the whole seconds from the start to the last solve |
| `RankPass.RanksAreCompetitionRanks` | `src/api/handlers.rs:1447-1472` | the rank is one more than the number of rows strictly ahead, and two rows share a rank if and only if points and whole seconds agree |
| `RankPass.HeuristicGroups` | `src/api/handlers.rs:1464-1470` | every row is within the tolerance of its group's first row, and each group starts more than the tolerance below the start of the one before |
| `RankPass.GroupRankCounts` | `src/api/handlers.rs:1464-1471` | without any condition on scores, a heuristic rank is one more than the number of rows strictly ahead of the first row of the group |
| `RankPass.HeuristicRanksAreCompetitionRanksIff` | `src/api/handlers.rs:1464-1471` | heuristic ranks are competition ranks if and only if no two different scores are within the tolerance |
| `RankPass.TieIff` | `src/api/handlers.rs:1448-1458` | which rows the comparator cannot tell apart |
| `RankPass.SortedIsUnique` | `src/api/handlers.rs:1448-1458` | without ties between different rows there is only one sorted order |
| `RankPass.TiedRowsSwap` | `src/api/handlers.rs:1448-1458` | exchanging two tied rows gives another sorted order of the same rows |
| `RankPass.OrderIsUniqueIff` | `src/api/handlers.rs:1448-1458` | the sorted order is a function of the set of rows if and only if no two different rows tie |
| `SubmissionLog.Accepted` | `src/db/submission.rs:248-252` | the samples selected are exactly the user, problem and time of the accepted submissions of known users in the contest |
| `SubmissionLog.Scored` | `src/db/submission.rs:274-279` | the samples selected are exactly the user, problem and score of the scored submissions of known users in the contest |
| `SubmissionLog.FirstByIsFirst` | `src/db/submission.rs:245-287` | grouping gives exactly the keys that have a sample, each with a sample value that none precedes |
| `SubmissionLog.FirstByDetermined` | `src/db/submission.rs:245-287` | that description determines the result, from the set of samples alone |
| `SubmissionLog.FirstAcsMeaning` | `src/db/submission.rs:245-260` | a user and problem are listed if and only if the log has a submission of that user to that problem in this contest, with the status stored for accepted, by an existing account; the time is that of an earliest one |
| `SubmissionLog.BestScoresMeaning` | `src/db/submission.rs:271-287` | a user and problem are listed if and only if the log has a scored submission with a score, likewise; the score is the largest |
| `SubmissionLog.OthersAreNotAccepted` | `src/db/submission.rs:250-252` | an entry of another contest or of none, not accepted, or of no known user changes no first solve |
| `SubmissionLog.OthersAreNotScored` | `src/db/submission.rs:276-279` | an entry of another contest or of none, not scored, without a score, or of no known user changes no best score |
| `SubmissionLog.QueriesIgnoreOrder` | `src/db/submission.rs:245-287` | two logs with the same entries, in any order and multiplicity, give the same results |
| `Standings.Collect` | `src/api/handlers.rs:1385-1392` | from the query rows in any order, the per-user map holds for each user with a row the name and exactly that user's values |
| `Standings.LastSolveIsLatest` | `src/api/handlers.rs:1404-1409` | the tie-break time is the latest first solve among the contest problems, absent if and only if none is solved |
| `Standings.BuildExactRow` | `src/api/handlers.rs:1396-1443` | the loop with two accumulators gives the row with the summed points, the latest first solve and one cell per problem |
| `Standings.BuildHeuristicRow` | `src/api/handlers.rs:1345-1374` | the loop gives the row with the summed best scores and one cell per problem |
| `Standings.BuildExactRows` | `src/api/handlers.rs:1394-1444` | whatever the iteration order of the map, there is exactly one row for each user |
| `Standings.BuildHeuristicRows` | `src/api/handlers.rs:1343-1375` | the same for heuristic contests |
| `Standings.SortAndNumber` | `src/api/handlers.rs:1447-1474` | sorting and the rank pass turn the collected rows into a page: the same rows, sorted and numbered |
| `Standings.ExactStandings` | `src/api/handlers.rs:1376-1474` | the exact branch produces a page of the log |
| `Standings.HeuristicStandings` | `src/api/handlers.rs:1327-1375` | the heuristic branch produces a page of the log |
| `StandingsProperties.FirstAcsReadsLog` | `src/db/submission.rs:245-260` | the grouped result agrees with reading the first solve of one user and problem off the log |
| `StandingsProperties.BestScoresReadsLog` | `src/db/submission.rs:271-287` | the grouped result agrees with reading the best score of one user and problem off the log |
| `StandingsProperties.ExactRowMeaning` | `src/api/handlers.rs:1396-1443` | total, last solve, displayed time and every cell of an exact row, in terms of the log alone |
| `StandingsProperties.LastSolveIsUnique` | `src/api/handlers.rs:1404-1409` | the log determines the last solve |
| `StandingsProperties.HeuristicRowMeaning` | `src/api/handlers.rs:1345-1374` | total and every cell of a heuristic row, in terms of the log alone |
| `StandingsProperties.ExactPageRefinesLog` | `src/api/handlers.rs:1376-1474` | the page has one row for exactly the users with an accepted submission, and each row's rank is one more than the number of users the log puts strictly ahead |
| `StandingsProperties.ExactListedIff` | `src/db/submission.rs:245-260` | the users listed are exactly those existing accounts of which the log has an accepted submission to the contest |
| `StandingsProperties.OthersKeepExactPage` | `src/db/submission.rs:250-252` | practice submissions, those to other contests, those not accepted and those of no known user leave the possible exact pages as they are |
| `StandingsProperties.RanksAgreeIff` | `src/api/handlers.rs:1460-1472` | two users share a rank if and only if the log gives them the same total and the same whole second of the last solve |
| `StandingsProperties.ExactRowsAreDetermined` | `src/api/handlers.rs:1376-1474` | the same user has the same row and rank on any two pages of the same entries, whatever the order of the log, of the query rows and of the hash map |
| `StandingsProperties.ExactPageUniqueIff` | `src/api/handlers.rs:1447-1474` | the exact page is the only possible one if and only if no two users share the total and the instant of the last solve in the log (or, having solved no contest problem, the name) |
| `StandingsExamples.SameInstantSwaps` | `src/api/handlers.rs:1447-1474` | in any contest with one problem, two users accepted at one instant give two different pages |
| `StandingsProperties.HeuristicPageDetermined` | `src/api/handlers.rs:1456` | with unique usernames the whole heuristic page is a function of the log's entries |
| `StandingsProperties.HeuristicPageGroups` | `src/api/handlers.rs:1460-1472` | on the finished page, each row is within the tolerance of the row its rank points at, and groups start more than the tolerance apart |
| `StandingsProperties.HeuristicPageRefinesLog` | `src/api/handlers.rs:1327-1472` | the page has one row for exactly the users with a scored submission, and each row's rank is one more than the number of users whose best scores add up to more than those of the row the rank points at |
| `StandingsProperties.HeuristicListedIff` | `src/db/submission.rs:271-287` | the users listed are exactly those existing accounts of which the log has a scored submission to the contest |
| `StandingsProperties.OthersKeepHeuristicPage` | `src/db/submission.rs:276-279` | submissions that do not count leave the possible heuristic pages as they are |
| `StandingsProperties.HeuristicPageRankedIff` | `src/api/handlers.rs:1464-1471` | every rank is one more than the number of users with a larger total if and only if no two users' totals are different but within the tolerance |
| `StandingsExamples.NeighboursShareRank` | `src/api/handlers.rs:1464-1471` | in any contest with one problem, two users with neighbouring scores share rank 1 |
| `JudgeTypes.StatusWords` | `src/types.rs:281-294` | which status is stored as each of the words the code and its queries look for |
| `JudgeTypes.StatusRoundTrip` | `src/types.rs:281-313` | a stored status reads back up to the detail that is not stored, the text identifies the kind, and success and finality survive |
| `Judge.UpdatedRows` | `src/db/submission.rs:107-136` | an update adds and removes no row, keeps every row but one, and writes exactly the columns it names |
| `Judge.Database.Execute` | `src/db/submission.rs:107-136` | an update changes the columns of one existing row or, when it fails, nothing |
| `Judge.CaseStatusIff` | `src/worker/mod.rs:198-233` | exactly when each verdict on a case is given; memory is compared only for runs that failed |
| `Judge.CaseTexts` | `src/worker/mod.rs:239-247` | which text is stored for a case, by what happened to it |
| `Judge.IsSpaceIff` | `src/worker/mod.rs:225-230` | the characters trimmed are the twenty-five of white space |
| `Judge.StderrShown` | `src/worker/mod.rs:187-196` | the error text starts with the compile warnings under their heading, if there are any, and ends with the program's own |
| `Judge.OutputMatchesIff` | `src/worker/mod.rs:225-230` | output is accepted if and only if it and the expected text are the same text with white space around it |
| `Judge.FirstFailure` | `src/worker/mod.rs:255-262` | the index is that of a failing case and every case before it succeeded |
| `Judge.MaxTime` | `src/worker/mod.rs:176-180` | an upper bound on the times that some case attains, or zero |
| `Judge.MaxMemory` | `src/worker/mod.rs:178-183` | the same for memory |
| `Judge.RunCases` | `src/worker/mod.rs:153-263` | the loop leaves in its six accumulators what the declarative reading prescribes, and stops at the first case the sandbox cannot run |
| `Judge.Count` | `src/worker/mod.rs:176-262` | one round of the loop extends the declarative reading by one case |
| `Judge.CountRun` | `src/worker/mod.rs:176-262` | the same for the outcome of a run |
| `Judge.TallyGivesResult` | `src/worker/mod.rs:265-300` | the final update built from the accumulators is the declarative result |
| `Judge.JudgeCompiled` | `src/worker/mod.rs:140-301` | judging a compiled program issues exactly one update, the declarative outcome, and runs the prescribed number of cases |
| `Judge.RunJob` | `src/worker/mod.rs:65-301` | over every exit, the table ends as the two updates `running` and the declarative outcome leave it, each applied or failed |
| `JudgeProperties.EveryExitIsTerminal` | `src/worker/mod.rs:65-301` | the last update is terminal on every exit; a verdict list is stored if and only if every case could be run, and then all were |
| `JudgeProperties.EarlyExits` | `src/worker/mod.rs:65-174` | a compile error overwrites every result column with status `compile_error` and the message as error text; every other early exit changes the status alone, to `internal_error` |
| `JudgeProperties.SuccessIff` | `src/worker/mod.rs:255-271` | a completed job succeeds if and only if every case does, and then stores empty output |
| `JudgeProperties.FirstFailureDecides` | `src/worker/mod.rs:255-271` | otherwise status, stdout and stderr are those of the lowest-index failing case |
| `JudgeProperties.StoredVerdicts` | `src/worker/mod.rs:208-253` | one verdict per case, in order, with that case's milliseconds, kilobytes and, for a heuristic run that ended well, the value the scorer gave; a total score if and only if the job is heuristic |
| `JudgeProperties.ScoreIsScorerTotal` | `src/worker/mod.rs:208-237` | the stored score is the sum of the values the scorer gave, taken from the runs |
| `JudgeProperties.StoredMaxima` | `src/worker/mod.rs:279-293` | stored time and memory are the largest of any case, absent if and only if all are zero |
| `JudgeProperties.ScoreIsSumOfList` | `src/worker/mod.rs:235-277` | the stored score is the sum of the scores in the stored list |
| `JudgeProperties.ScoreIsFiniteIff` | `src/worker/mod.rs:235-237` | the total is finite if and only if every case's score is and no running total leaves the range of an `f64`; then it is the sum |
| `JudgeProperties.FiniteScoresCanOverflow` | `src/worker/mod.rs:235-237` | two finite scores whose total is not |
| `JudgeProperties.DecodesIff` | `src/types.rs:366-375` | which JSON values decode as a verdict |
| `JudgeProperties.DecodeAll` | `src/db/submission.rs:31-36` | a list decodes if and only if every item does, and then item by item |
| `JudgeProperties.PassedAppend` | `src/api/handlers.rs:291-294` | the count of passed verdicts adds up over parts of the list |
| `JudgeProperties.PassedCounts` | `src/api/handlers.rs:291-294` | the count is the number of positions that hold `AC` or `SCORED` |
| `JudgeProperties.VerdictRoundTrip` | `src/types.rs:366-375` | encoding and decoding one verdict keeps its text, and gives it back if and only if its score is absent, or finite and given back by reading its decimal form |
| `JudgeProperties.StoredListRoundTripIff` | `src/db/submission.rs:29-45` | a stored list reads back unchanged if and only if every score in it does; the listed verdict texts always survive |
| `JudgeProperties.LegacySummary` | `src/api/handlers.rs:284-296` | a legacy list of strings gives the summary of its upgraded form and decodes to that form |
| `JudgeProperties.PagesAgree` | `src/api/handlers.rs:284-290` | the list page and the detail page read any stored value the same way |
| `JudgeProperties.ListedAgree` | `src/api/handlers.rs:284-295` | for every result `judge` stores, as many verdicts are listed as there are cases, and as many of them count as cases succeeded |
| `JudgeProperties.AllOkIff` | `src/worker/mod.rs:255-262` | as many cases succeeded as there are if and only if the submission did |
| `JudgeProperties.SummaryAgreesWithStatus` | `src/api/handlers.rs:284-296` | the printed summary is `k/n` with k the number of cases that succeeded and n the number of cases, and is `n/n` if and only if the stored status is accepted or scored |
| `WorkerPool.InvStart` | `src/worker/mod.rs:29-32` | the invariant holds at the start, with any existing rows and any number of workers |
| `WorkerPool.ConservedStep` | `src/worker/mod.rs:37-49` | every step keeps sent jobs in exactly one place and in order |
| `WorkerPool.StatusFitsStep` | `src/worker/mod.rs:65-300` | every step keeps the status column in agreement with how far each job has come |
| `WorkerPool.WritesOneRow` | `src/worker/mod.rs:59-63` | a write that goes through changes the one row, to running or the verdict; one that fails changes none |
| `WorkerPool.InvStep` | `src/worker/mod.rs:29-55` | every step of a handler or a worker keeps the whole invariant |
| `WorkerPool.InvAlways` | `src/worker/mod.rs:29-55` | the invariant holds in every state of every run |
| `WorkerPool.PoolIsSafe` | `src/worker/mod.rs:29-55` | in every run each sent job is in exactly one of the queue, one worker's hands or the finished jobs; jobs are taken in send order; the queue holds at most 256; queued and held jobs have rows; a worker exits only when the channel is closed and empty |
| `WorkerPool.StepIsForward` | `src/worker/mod.rs:59-66` | no step removes a row or moves a status back or away from a terminal one |
| `WorkerPool.StatusMovesForward` | `src/worker/mod.rs:59-300` | over any stretch of any run, even with failing writes, statuses only move forward |
| `WorkerPool.WorkerStepsFinish` | `src/worker/mod.rs:37-49` | every worker step decreases the work left |
| `WorkerPool.WorkBoundsSteps` | `src/worker/mod.rs:37-49` | in any run, arrivals included, worker steps and the work left add up to at most the work at the start and that of the jobs sent since |
| `WorkerPool.QuietMeansDone` | `src/worker/mod.rs:37-49` | when no worker can move, the queue is empty, nobody is judging and every sent job is finished |
| `WorkerPool.QuietMeansJudged` | `src/worker/mod.rs:37-49` | when no worker can move, every sent job none of whose writes failed has its terminal verdict stored, and no handler is held up in `send` |
| `WorkerPool.EverySentJobIsJudged` | `src/worker/mod.rs:29-301` | the same over any run with submissions arriving all along, with a bound on the workers' steps |
| `WorkerPool.NothingMissed` | `src/worker/mod.rs:59-63` | a run in which no write fails misses no job |
| `WorkerPool.AllVerdictsStored` | `src/worker/mod.rs:29-301` | from the start, if no write fails: whenever no worker can move, every job ever sent has its verdict in the table |
| `WorkerPool.JudgingEnds` | `src/worker/mod.rs:65-301` | a worker that holds a job has a run of its own that stores the verdict and changes nothing else in the table |
| `WorkerPool.SubmissionGetsThrough` | `src/worker/mod.rs:29-55` | with at least one worker, any new submission has a run in which it is inserted, sent, taken and judged |
| `JudgedPool.PhasesRunSameCases` | `src/worker/mod.rs:153-263` | the steps of a worker run as many cases, and store the status, as the modelled procedure does |
| `JudgedPool.AllComeInRun` | `src/worker/mod.rs:40-48` | every task anywhere in the pool is one that a handler inserted |
| `JudgedPool.TableHoldsOutcomes` | `src/worker/mod.rs:29-301` | whenever no worker can move, the row of every job ever sent holds the status that judging that job yields, or one of its writes failed |
| `Runner.StatusWords` | `src/sandbox/runner.rs:380-389` | the status words for exits, signals and stopped processes decode to what they encode; unknown signals read as a kill |
| `Runner.Kernel.TryWait` | `src/sandbox/runner.rs:234-240` | a polling wait reaps an exited child once, reports a live one, or fails |
| `Runner.Kernel.KillAndWait` | `src/sandbox/runner.rs:244-251` | the kill races with the child's own exit, which keeps its own status if it wins; the blocking wait reaps it or fails |
| `Runner.AwaitChild` | `src/sandbox/runner.rs:228-260` | unless a `wait4` fails the child is reaped; only a child that did not exit by itself is killed, and only after the limit and 100 ms; the rounds are bounded, with 5 ms of sleep between two |
| `Runner.Collect` | `src/sandbox/runner.rs:228-274` | unless a `wait4` fails the child is reaped, with the status it left by itself or late. The verdict is Ok if and only if in time and exited with zero; timed out if and only if late or stopped by the CPU limit; killed if and only if in time and ended by another signal; failed without a status if it was not reaped in time; an exit code if and only if in time and exited with it |
| `Runner.KillFlagIsRedundant` | `src/sandbox/runner.rs:334-342` | having been killed already implies being late, so the flag cannot change the verdict |
| `Runner.RaceIsHarmless` | `src/sandbox/runner.rs:242-253` | past the deadline, whoever wins the race between exit and kill, the verdict is the same |
| `Pipes.ReadEnd.Read` | `src/sandbox/runner.rs:396` | a read takes a nonempty prefix of what is left, of any length up to the buffer, or reports the end |
| `Pipes.DrainFd` | `src/sandbox/runner.rs:392-408` | for every stream and every pattern of short reads: exactly the first bytes up to the limit are returned, the stream is consumed to its end and the descriptor closed |
| `Pipes.WriteEnd.Write` | `src/sandbox/runner.rs:204-210` | a write accepts some prefix of the bytes or fails |
| `Pipes.FeedStdin` | `src/sandbox/runner.rs:202-216` | a prefix of the input is written, all of it if and only if no write failed, and the loop gives up only when one has; the descriptor is closed |
| `Pipes.InvStep` | `src/sandbox/runner.rs:198-223` | every step of the child or of a thread keeps the bytes of the three pipes accounted for |
| `Pipes.InvAlways` | `src/sandbox/runner.rs:198-272` | the accounting holds in every state of every run, against any child |
| `Pipes.ChildIsFree` | `src/sandbox/runner.rs:198-223` | nothing is assumed of the child: it may start threads, call, close its ends and go at any time |
| `Pipes.CallsMoveBytes` | `src/sandbox/runner.rs:198-223` | which bytes a read, a write and a partial write of the child move |
| `Pipes.CallsAreHonest` | `src/sandbox/runner.rs:198-223` | what reads and writes on open and closed pipes do |
| `Pipes.BlockedIsServed` | `src/sandbox/runner.rs:396-405` | any thread of the child blocked writing can be drained, however much was captured already; one blocked reading can be fed or is about to see the end |
| `Pipes.GoneIsCollected` | `src/sandbox/runner.rs:270-272` | once the child is gone, a thread that is not done can move |
| `Pipes.ParentStepsFinish` | `src/sandbox/runner.rs:198-223` | every step of a thread decreases what the threads have left to do without the child |
| `Pipes.ParentRunIsShort` | `src/sandbox/runner.rs:198-223` | while the child waits the threads take a bounded number of steps |
| `Pipes.IdleMeansServed` | `src/sandbox/runner.rs:198-272` | when no thread of the parent can move, no thread of the child is blocked, and if the child is gone everything is collected |
| `Pipes.PipesCannotDeadlock` | `src/sandbox/runner.rs:198-272` | from every reachable state, with a child of any number of threads, the parent's threads stop within a bound and then every call of the child can go on or everything is collected |
| `Pipes.FinishedRunCapturesOutput` | `src/sandbox/runner.rs:221-272` | however the run was interleaved, each output is captured exactly up to its limit, and the child was given a prefix of the input, all of it unless it closed its end |
| `Pipes.BytesAreConserved` | `src/sandbox/runner.rs:198-223` | at every moment, for each pipe, bytes written are bytes read followed by bytes in flight |
| `Pipes.EndOfInputMeansAllRead` | `src/sandbox/runner.rs:202-216` | a child that keeps stdin open sees its end only after reading all of the input |
| `Cooldown.Session.CheckCooldown` | `src/api/handlers.rs:304-313` | the remaining wait since the stored time, or since time zero if there is none or the session cannot be read |
| `Cooldown.Session.RecordSubmitTime` | `src/api/handlers.rs:315-318` | the new time is stored, or silently lost |
| `Cooldown.Session.Submit` | `src/api/handlers.rs:828-870` | a refused or failed request changes nothing; an accepted one records its time |
| `Cooldown.LastStored` | `src/api/handlers.rs:304-318` | the last accepted request of a class whose time was stored |
| `Cooldown.TimesAreLastStored` | `src/api/handlers.rs:304-318` | over a whole session the stored time is that of this request |
| `Cooldown.AcceptedIff` | `src/api/handlers.rs:828-870` | exactly when a request is accepted, with every way in which reading or storing the session may have failed |
| `Cooldown.AcceptedAreSpaced` | `src/api/handlers.rs:828-870` | two accepted submissions of a class are at least its pause apart if the first was stored and the second could read the session |
| `Cooldown.SpacingHoldsIff` | `src/api/handlers.rs:305-317` | spacing is certain if and only if both of these accesses work, in either class |
| `Cooldown.LostTimeAllowsAnother` | `src/api/handlers.rs:315-318` | after any sequence of requests whose last was accepted but not stored, another of its class is accepted at the instant the last was to be recorded |
| `Cooldown.FailedReadAllowsAny` | `src/api/handlers.rs:305` | after any sequence of requests, one that cannot read the session is accepted once the clock is past one pause from zero |
| `Cooldown.AtMostOnePerPause` | `src/api/handlers.rs:828-870` | at most one more than the window divided by the pause are accepted in any window in which the session's reads and writes of that class work |
| `Cooldown.RefusalsAreHarmless` | `src/api/handlers.rs:304-313` | a refusal changes nothing; waiting the reported remainder is enough and anything less is not |
| `Cooldown.RecordedTimeHoldsBack` | `src/session_store.rs:32-78` | a check on a record that descends from a submission's save passes only when the pause since that submission is over, however requests overlap |
| `Cooldown.OverlappingSaveLosesTime` | `src/session_store.rs:32-48` | a save made on an older record takes the times recorded since away |
| `Cooldown.NothingForgottenIff` | `src/session_store.rs:32-78` | every save is known to all later records if and only if no two requests overlap |
| `Cooldown.OverlappingChecksPass` | `src/api/handlers.rs:834-870` | once a check on a record passes, every later check on that record does |
| `Cooldown.ClassesAreIndependent` | `src/api/handlers.rs:828-832` | the two classes of contest do not affect each other's wait |
| `Pagination.BuildPagination` | `src/api/handlers.rs:140-161` | the loops push the strip that the lemmas below describe |
| `Pagination.StripHidesNothing` | `src/api/handlers.rs:140-161` | replacing each ellipsis by the pages between its neighbours gives 1 to total, for every total from 1 on and every current page, even one out of range |
| `Pagination.EllipsesHideSomething` | `src/api/handlers.rs:140-161` | every ellipsis stands between two pages and hides at least one |
| `Pagination.StripIsShort` | `src/api/handlers.rs:140-161` | at most nine items; shown are exactly the ends and the pages within two of the current one, or all of up to seven |
| `Pagination.ClampIff` | `src/api/handlers.rs:1501` | page 1 when none is asked for or the number is below 1, the last page when it is above |
| `Pagination.PageSizes` | `src/api/handlers.rs:1498-1504` | twenty rows a page, from the right place; only the last has fewer, and it is empty only if there are no rows |
| `Pagination.ShowPage` | `src/api/handlers.rs:1498-1505` | any requested page, absent, negative or huge, gives a page in range and in-bounds slice limits; a page in range is the one shown, anything else is the first or the last |
| `Pagination.FirstPagesArePrefix` | `src/api/handlers.rs:1498-1504` | the first n pages, one after the other, are a prefix of the rows |
| `Pagination.PagesCoverRows` | `src/api/handlers.rs:1498-1504` | all pages, one after the other, are all rows |
| `ScoreText.TrimEnd` | `src/api/handlers.rs:300` | what remains is a prefix not ending in the character, and only that character was removed |
| `ScoreText.PrintedForm` | `src/api/handlers.rs:298-301` | trimming never removes a digit of the whole part; a point is printed if and only if fraction digits follow, the last not zero |
| `ScoreText.WholePartDigits` | `src/api/handlers.rs:298-301` | the whole part is digits without leading zeros, after a minus sign if the score is negative |
| `ScoreText.NoLooseEnd` | `src/api/handlers.rs:298-301` | no output ends in a point, or in a zero after one |
| `ScoreText.ScoreRoundTrip` | `src/api/handlers.rs:298-301` | parsing a printed score gives back its sign and millionths |
| `ScoreText.PrintsAlikeIff` | `src/api/handlers.rs:298-301` | two scores print alike if and only if they are the same millionth with the same sign |
| `XorShift.Invert13` | `problems/max_cut/scorer.py:9` | the first stage has the given inverse, on both sides |
| `XorShift.Invert17` | `problems/max_cut/scorer.py:10` | the second stage has the given inverse |
| `XorShift.Invert5` | `problems/max_cut/scorer.py:11` | the third stage has the given inverse |
| `XorShift.NextIsBijective` | `problems/max_cut/scorer.py:8-12` | a draw is a bijection on 32-bit words |
| `XorShift.DrawsAreInjective` | `problems/max_cut/scorer.py:16-26` | no number of draws merges two seeds; zero is reached if and only if the seed is zero |
| `XorShift.FirstDraws` | `problems/max_cut/scorer.py:8-12` | the first six draws from seed 1 |
| `XorShift.MaskedAgrees` | `problems/max_cut/scorer.py:8-12` | on 32-bit values each masked stage on wide integers is the stage on words |
| `XorShift.MaskedXorShift` | `problems/max_cut/scorer.py:8-12` | the code as written agrees with the 32-bit draw |
| `MaxCut.GenerateGraph` | `problems/max_cut/scorer.py:15-30` | the loop gives the m edges of the seed and their total weight; it raises if and only if there is an edge to draw and fewer than two vertices |
| `MaxCut.SkipIsBijective` | `problems/max_cut/scorer.py:23-25` | the shift past `a` is a bijection onto the other vertices |
| `MaxCut.EdgeFromDraws` | `problems/max_cut/scorer.py:19-28` | each edge is fixed by its three draws: the ends are congruent to the first modulo n and, the first end skipped, to the second modulo n - 1, the weight less one to the third modulo 1000 |
| `MaxCut.KnownGraph` | `problems/max_cut/scorer.py:15-30` | the graph of two vertices, two edges and seed 1 |
| `MaxCut.EdgesAreWellFormed` | `problems/max_cut/scorer.py:15-30` | ends in range, no self-loop, weights from 1 to 1000, total between m and 1000 m, for every n from 2 on, m and seed |
| `MaxCut.SeedZeroRepeatsOneEdge` | `problems/max_cut/scorer.py:16-28` | seed zero draws the same edge m times |
| `MaxCut.Score` | `problems/max_cut/scorer.py:33-55` | zero for output that is unreadable, of the wrong length or with another colour; otherwise the rounded ratio, or an exception if and only if the graph has no edge or fewer than two vertices |
| `MaxCut.CutAtMostTotal` | `problems/max_cut/scorer.py:50-53` | the cut is at most the total, equal if and only if every edge is cut, zero if and only if none is |
| `MaxCut.CutIsAdditive` | `problems/max_cut/scorer.py:50-53` | the cut adds up over the edges, each cut edge with its weight |
| `MaxCut.RoundIsNearest` | `problems/max_cut/scorer.py:55` | no integer is nearer to the ratio, and of two equally near the even one is taken |
| `MaxCut.ScoreIsNearRatio` | `problems/max_cut/scorer.py:44-55` | the score is within half a point of a million times cut over total |
| `MaxCut.RoundingIsMonotone` | `problems/max_cut/scorer.py:55` | rounding keeps order |
| `MaxCut.ScoreIsBoundedAndMonotone` | `problems/max_cut/scorer.py:55` | the score is at most a million and never lower for a larger cut |
| `MaxCut.ScoreBounds` | `problems/max_cut/statement.md:58-63` | at most a million, and a million when every edge is cut |
| `MaxCut.RoundsToFullIff` | `problems/max_cut/scorer.py:55` | a ratio rounds to a million if and only if what is uncut is at most half a millionth of the total |
| `MaxCut.FullMarksIff` | `problems/max_cut/scorer.py:49-55` | a colouring of a generated graph gets full marks if and only if that holds of its cut; below a total of two million, if and only if every edge is cut |
| `MaxCut.SwapKeepsScore` | `problems/max_cut/scorer.py:51-55` | exchanging the two colours everywhere keeps the score |
| `MaxCut.FloatDivisionIsFaithful` | `problems/max_cut/scorer.py:55` | within the stated limits, rounding a correctly rounded double quotient gives the rounded exact fraction |
| `MaxCut.ScoreAsComputed` | `problems/max_cut/scorer.py:55` | so what the scorer prints is the modelled score |
| `MaxCut.SeedZeroScore` | `problems/max_cut/statement.md:52-63` | with seed zero, full marks if the first two vertices differ and nothing otherwise |

## Left out

- Floating point in the standings: scores and totals are reals. Rounding of heuristic sums is not modelled, the cast of exact totals to `f64` is taken as exact (it is below 2^53) and `u64` overflow of a total is not modelled. Scores that are not a number, for which the comparator is no order, are not part of the standings model.
- `JudgeProperties.ScoreIsFiniteIff`: running totals are exact sums; the range of an `f64` is modelled, the rounding of a sum within it is not. The same goes for `JudgeProperties.ScoreIsSumOfList`.
- Rendering of scores in cells: rows carry the numbers; `format_score` is proved about separately, on a value already rounded to six decimals.
- `Ranking.SortSorts`: the library sort is modelled by an insertion sort; the theorems about pages hold for every sorted permutation, so they do not rely on which stable sort it is.
- SQL: each query is its mathematical meaning on a log. The order of rows with equal `created_at`, transactions and isolation are not modelled.
- Text of JSON and widths of numbers in it: the stored list is modelled as JSON values, of which `u64` fields may be any natural number, and reading a decimal fraction is an arbitrary function; a struct written as an array, which serde also accepts, is not modelled.
- Bytes and text: lossy UTF-8 decoding of output happens before the model's strings begin.
- Compilation, version detection, temporary directories, the sandbox child (`child_exec`, rlimits, seccomp, namespaces, cgroups) and the scorer process as a subprocess: arbitrary answers in `World`.
- Worker panics, process crash and restart: the in-memory queue is then lost. A request cancelled between insert and send is the step `Abandon`; its row stays pending.
- The send error when every worker is gone: the receiver lives as long as a worker, and the model has no step for a failed send.
- `Cooldown.AcceptedAreSpaced`: speaks of requests of one session one after another on a clock that does not go back. For requests that overlap, `RecordedTimeHoldsBack`, `OverlappingSaveLosesTime` and `NothingForgottenIff` say what holds instead; that a request loads its record once and saves it once, whole, is taken from the session library, which is not part of this model, and clock readings are taken to follow what has been loaded.
- `Cooldown.FailedReadAllowsAny`: whether a read can fail after the login check of the same request has succeeded is up to the session library and left open.
- `Runner.Collect`: in the branch where `wait4` itself fails, the child is left unreaped, as in the code; only the verdict is modelled. Measuring memory is not.
- `Pipes.PipesCannotDeadlock`: speaks of one sandbox run in isolation, and of progress of the whole, not of fairness between threads of the child. Descriptors inherited by grandchildren or by concurrently forked children, and writes that fail for another reason than a closed reader, are not part of the step system; `FeedStdin` covers arbitrary failures.
- `MaxCut.Score`: a malformed input file is not modelled, since the problem setter writes it; output that cannot be read as integers is.
- `XorShift.MaskedXorShift`: integers of arbitrary size are modelled by 64-bit words, which hold every intermediate value of an argument below 2^32; the scorer never passes a larger one.
- Routing, templates, sessions and passwords, page locking by contest status, problem loading, Markdown and language tables: plumbing over libraries, or only easy members.
