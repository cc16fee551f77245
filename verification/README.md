# Commitments ledger, snapshot cache, league table and text scanners: a verified model

The project models the parts of the league application where state and
scanning are hardest to get right, and proves what they keep over every input,
every run and every interleaving.

* **The commitments ledger** (`Identifiers`, `Commitments`, `Ledger`,
  `UndoStacks`, `LedgerInvariant`, `LedgerRuns`, `LedgerLaws`, `LedgerEffects`,
  `Seeding`, `Store`). Baselines, weekly updates and the change log are three append-only
  tables. Nothing is deleted: an edit hides the row it replaces behind a pointer,
  a reversal marks the top row and shows the one below it again. `UndoStacks`
  proves that this flat table of pointers is a family of undo stacks, one for each
  class, student and week; `LedgerInvariant` that every operation keeps it so;
  `LedgerRuns` and `LedgerLaws` what follows for hours, log and read views over
  whole runs; `LedgerEffects` what each operation writes, column by column.
  `Store.CommitmentStore` is the class that updates the tables in
  place, one method per transaction, each method equal to its ledger step.
* **The snapshot cache** (`SnapshotCache`, `CacheProtocol`, `CacheContents`). `LeagueService` is the
  class with its two dictionaries and the freshness and cooldown rules.
  `CacheProtocol` is the interleaved transition system: readers hold the service
  lock over several separate store reads, writers commit without the lock and take
  it only to invalidate. Commits in it are ledger steps, and `CacheContents` says
  what hours and settings an answer therefore shows.
* **Scoring and ranking** (`Scoring`, `Ranking`, `RankRows`, `Gaps`,
  `LeagueTable`, `RiskRuns`). Scores are exact reals, ranked scores integer tenths.
  `LeagueTable.BuildRows` composes everything: it reads hours through the
  ledger's listings, scores, averages, sorts, numbers and measures the gaps.
* **The hand-written scanners of the front end** (`PseudoCss`, `PseudoCssLaws`,
  `ImportantLaws`, `ScannerLaws`; `Expressions`, `ExpressionLaws`). The index loops are methods;
  the functions they are proved against read the text token by token. Printing an
  expression and resolving the text gives back the expression's value.

`Wrappers` and `Sequences` hold the option type and facts about selecting rows.

Where the code and its documentation differ, the model follows the code:

* Approving a replacement baseline supersedes the old one outright
  (`backend/app/store.py:394`), so weeks before the new effective week resolve to
  no hours (`backend/app/scoring.py:133`). The repository's product description
  (under `_docs`, table "How entries work") says they keep their factors.
  `LedgerLaws.ApprovalKeepsEarlierWeekIff` gives the exact condition under which
  they do, `LedgerLaws.ApprovalRewritesEarlierWeek` a case where they do not.
* A reversal shows the value that the reversed update had replaced
  (`backend/app/store.py:425-431`); it is not always the baseline, as
  `openapi.yaml:534-535` says. `LedgerLaws.ReversalShowsReplacedValue` says when it
  is, `LedgerLaws.ReversalCanMissBaseline` is a case where it is not.
* A gap to the next rank is absent exactly for rank 1 only as long as every row
  has a score (`backend/app/service.py:143-144` sees to that); a row without one
  never has a gap. `Gaps.GapsRight` has both cases.
* Rescaled weights sum to a hundred exactly when no criterion that counts is
  listed twice; the code removes duplicates from the divisor
  (`backend/app/scoring.py:58-59`) but not from the parts, so a criterion listed
  twice counts twice (`Scoring.ListedTwiceCountsTwice`).
* Quoted text in a template expression is found only after the search for an
  equality operator, which does not know about quotes
  (`frontend/support.js:211-234`). `ExpressionLaws.QuotedIff` is the exact condition
  under which quoted text stands for itself, `ExpressionLaws.QuotedEqualityIsSplit`
  a text that does not.

## Model

| member | source | states |
|---|---|---|
| Identifiers.DecimalRoundTrip | backend/app/store.py:131-134 | reading back a printed number gives the number, for every number |
| Identifiers.NextIdFresh | backend/app/store.py:126-134 | a new id repeats none of the ids it was computed from, whatever those look like, and has the form prefix plus digits |
| Identifiers.ComputeNextId | backend/app/store.py:126-134 | the loop over existing ids computes that id; it is fresh |
| Identifiers.ClassesNeverCollide | backend/app/store.py:317-321 | one id cannot belong to two classes, although only ids of the own class are inspected |
| LedgerInvariant.NewBaselineIdFresh | backend/app/store.py:317-321 | the id of a new baseline is new in the whole table |
| LedgerInvariant.NewUpdateIdFresh | backend/app/store.py:344-348 | the id of a new weekly update is new in the whole table |
| LedgerInvariant.NewLogIdFresh | backend/app/store.py:237-239 | the id of a new log entry is new in the whole log |
| Identifiers.NextIdContinues | backend/app/store.py:126-134 | numbering continues with one more than the largest number in use |
| Identifiers.SignedNumerals | backend/app/store.py:131 | signs and surrounding blanks are read as the integer parser reads them, so a negative number never raises the count |
| UndoStacks.PushStep | backend/app/store.py:337-355 | a save pushes its hours on its own student-week's stack, touches no other stack and keeps every pile of unreversed rows one ascending chain of pointers with one live top; reversed rows have no pointer |
| UndoStacks.PointersLeadUp | backend/app/store.py:353-355 | no pointer dangles and none names a reversed row: a hidden row's pointer is the id of a later unreversed row of the same student-week |
| UndoStacks.ReplacedIsNextDown | backend/app/store.py:425-429 | the row a reversal finds by pointer is the one just below the top, and there is none exactly when the pile has one row |
| UndoStacks.PopStep | backend/app/store.py:418-431 | an accepted reversal pops exactly its own stack and keeps the chains |
| UndoStacks.LiveIsTop | backend/app/store.py:337-343 | the single-row query for the current update finds the top of the stack, or nothing if it is empty |
| LedgerInvariant.HoursFollowStack | backend/app/store.py:252-263 | hours in effect, computed by querying flat rows, are a function of the approved baseline and the top of the week's stack |
| LedgerInvariant.LiveListingShowsTop | backend/app/scoring.py:107-114 | among a student's live rows, oldest first, the first unreversed one of a week is the stack's top |
| LedgerInvariant.StepOnStack | backend/app/store.py:310-438 | refinement: per operation and student-week, the stack is pushed, popped or unchanged |
| LedgerInvariant.StepOnApproved | backend/app/store.py:374-409 | only an accepted approval changes a student's approved baseline, and then to the decided row |
| LedgerInvariant.StepKeeps | backend/app/store.py:234-438 | every operation keeps the invariant; a refused one changes nothing, an accepted one appends exactly one log entry of its class |
| LedgerInvariant.RunKeeps | backend/app/store.py:310-438 | the invariant (chains, distinct ids, at most one approved baseline a student) holds after every run |
| LedgerInvariant.ReversalAcceptedIffTop | backend/app/store.py:413-421 | a reversal is accepted if and only if it names the top of some undo stack |
| LedgerRuns.RunKeepsBottom | backend/app/store.py:333-438 | the part of a stack below a run's lowest point is untouched, and the height moves by saves minus reversals |
| LedgerRuns.UndoLaw | backend/app/store.py:252-263 | a run whose reversals of a student-week are well nested, mixed with anything else but approvals for the student, gives back the stack and the hours it started with |
| LedgerRuns.OnlyOwnOperationsChangeHours | backend/app/store.py:310-438 | hours of a student-week change only through an approval for the student or an accepted save or reversal of that very week |
| LedgerRuns.RunKeepsApproved | backend/app/store.py:374-409 | without an approval for the student, the approved baseline stays the same over a run |
| LedgerRuns.SetLogsItsHours | backend/app/store.py:336-360 | a save's log entry goes from the hours in effect before it to those after it |
| LedgerRuns.ReverseLogsItsHours | backend/app/store.py:422-435 | the same for a reversal |
| LedgerRuns.LogChains | backend/app/store.py:356-360 | over any run without a new approval for the student, a week's entries chain: each starts where the previous ended, the last ends at the hours in effect now; week numbers and ids need to match within the student's class only, since each class has its own term's weeks (`backend/app/service.py:286`) |
| LedgerRuns.LogOnlyGrows | backend/app/store.py:234-242 | the log before a run is a prefix of the log after it |
| LedgerLaws.ApprovalEffect | backend/app/store.py:385-402 | after an approval every week of the student resolves through the new baseline and its own stack |
| LedgerLaws.ApprovalKeepsEarlierWeekIff | backend/app/scoring.py:107-133 | an approval keeps the hours of a week before its effective week if and only if that week had a weekly value or already resolved to no hours |
| LedgerLaws.ApprovalRewritesEarlierWeek | backend/app/store.py:394 | a concrete ledger in which an approval takes an earlier week from ten hours to none |
| LedgerLaws.ReversalShowsReplacedValue | backend/app/store.py:425-432 | a reversal shows the next value down; the week is back on the baseline if and only if the stack had one value |
| LedgerLaws.ReversalCanMissBaseline | backend/app/store.py:425-432 | a concrete ledger in which a reversal gives back five hours set earlier and not the baseline's ten |
| LedgerLaws.NothingCountsBeforeApproval | backend/app/scoring.py:102-105 | weekly values count if and only if the student has an approved baseline |
| LedgerLaws.StepAges | backend/app/store.py:374-438 | one operation deletes no row and moves a status only from pending to approved or rejected or from approved to superseded |
| LedgerLaws.RunAges | backend/app/store.py:310-438 | the same over whole runs: ids, owners, hours and decided rows never change otherwise |
| LedgerLaws.ReadersAgree | backend/app/store.py:279-308 | the commitments view, the scoring service's choice from a class listing and the hours query pick the same baseline and the same rows |
| LedgerLaws.ListingsGiveHoursInEffect | backend/app/service.py:128-145 | what ranking resolves from two listings equals the hours in effect that the store logs |
| LedgerLaws.OtherClassesUntouched | backend/app/store.py:310-438 | an operation of one class leaves the listings of every other class as they were |
| LedgerEffects.SubmissionWrites | backend/app/store.py:310-331 | a submission appends one pending row with each kind of requested hours in its own column and logs actor, old and new values, the old ones from the student's latest standing baseline |
| LedgerEffects.CommitmentsShow | backend/app/store.py:295-308 | the commitments view shows the latest baseline that is not superseded, and the approved one |
| LedgerEffects.NewIdsAre | backend/app/store.py:239-348 | new ids are the class, the table's tag and a number |
| LedgerEffects.SaveWrites | backend/app/store.py:333-355 | a save appends one live row with the requested week, id and hours, and points exactly the week's live row at it |
| LedgerEffects.SaveLogs | backend/app/store.py:356-360 | a save's entry: actor, week, the hours in effect before, if any applied, and the requested ones |
| LedgerEffects.SaveTakesEffect | backend/app/store.py:333-363 | under an approved baseline the saved week resolves at once to the hours requested, kind by kind |
| LedgerEffects.DecisionOutcome | backend/app/store.py:377-383 | which decisions are accepted and why the others are refused, both directions |
| LedgerEffects.DecisionWrites | backend/app/store.py:385-399 | the decided row's new columns, the retirement of approved rows, and every other row unchanged |
| LedgerEffects.DecisionLogs | backend/app/store.py:384-406 | a decision's entry: action, actor, the hours approved before, the row's hours and, for an approval, the effective week |
| LedgerEffects.ReversalOutcome | backend/app/store.py:413-421 | which reversals are accepted and why the others are refused, both directions |
| LedgerEffects.ReversalWrites | backend/app/store.py:422-431 | the reversed row is marked, exactly the row that pointed at it loses its pointer, every other row is unchanged |
| LedgerEffects.ReversalLogs | backend/app/store.py:422-435 | a reversal's entry: the hours reversed and the hours in effect now |
| LedgerEffects.HoursFromRows | backend/app/scoring.py:99-133 | the whole rule in terms of rows: the live row's hours, else the baseline's from its effective week on, else none |
| LedgerEffects.OnlyApprovedCounts | backend/app/scoring.py:102-133 | a baseline that is not approved gives no hours, and when each source is reported |
| Seeding.SeededIsValid | backend/app/store.py:164-185 | a database filled from a good seed satisfies the invariant |
| Seeding.ReseedingChangesNothing | backend/app/store.py:176-181 | seeding again after any run leaves both tables unchanged |
| Seeding.SeedRowsArrive | backend/app/store.py:176-181 | seeding keeps every row and inserts, with all columns and under its class, every seed row whose id is used once and not taken |
| Store.CommitmentStore.constructor | backend/app/store.py:141-148 | a new store holds the seeded tables, which satisfy the invariant |
| Store.CommitmentStore.Seed | backend/app/store.py:164-185 | the loops insert exactly the seed rows whose ids are absent |
| Store.CommitmentStore.AddLog | backend/app/store.py:234-242 | appends the one entry, with a fresh id |
| Store.CommitmentStore.ResolveNow | backend/app/store.py:252-263 | hours in effect; equals the stack's answer |
| Store.CommitmentStore.SaveBaseline | backend/app/store.py:310-331 | the whole new state is the ledger step; a pending row with the requested hours, kind by kind, is appended and the invariant kept |
| Store.CommitmentStore.SaveWeeklyUpdate | backend/app/store.py:333-363 | the whole new state is the ledger step; the week's stack is pushed with the returned row's hours, which are the requested ones, kind by kind |
| Store.CommitmentStore.DecideBaseline | backend/app/store.py:374-409 | the outcome and the whole new state are the ledger step's, including both refusals |
| Store.CommitmentStore.SupersedeApproved | backend/app/store.py:386-395 | the loop retires every approved baseline of the student and nothing else |
| Store.CommitmentStore.ReverseWeeklyUpdate | backend/app/store.py:411-438 | the outcome and the whole new state are the ledger step's, including the three refusals |
| SnapshotCache.LeagueService.constructor | backend/app/service.py:225-234 | the service starts with empty dictionaries |
| SnapshotCache.LeagueService.GetSnapshot | backend/app/service.py:249-263 | a young cached snapshot is returned and nothing changes; else what is read is cached and returned; else the cached one is returned marked stale and kept; an error occurs exactly for an unknown class or a source down with nothing cached. So what is returned is unmarked and younger than the time to live, or just read, or marked stale with the contents of the last successful read |
| SnapshotCache.LeagueService.Invalidate | backend/app/service.py:265-268 | drops the class's snapshot and no other |
| SnapshotCache.LeagueService.Refresh | backend/app/service.py:270-277 | inside the cooldown nothing changes and an error says how long to wait; else the time is recorded and the class read anew, with the answers of a snapshot call that finds nothing young |
| SnapshotCache.RunsServeFresh | backend/app/service.py:249-263 | after any run of calls on any classes, a call answers exactly as above, and so freshly |
| SnapshotCache.CooldownHolds | backend/app/service.py:273-276 | in every run, admitted refreshes of a class are at least a cooldown apart |
| SnapshotCache.WaitIsExact | backend/app/service.py:274-275 | the reported wait is the least whole number of seconds after which the gate opens, and at least one |
| CacheProtocol.ReaderKeepsInv | backend/app/service.py:249-294 | every step of a reader, each store read a step of its own, keeps the protocol's invariant |
| CacheProtocol.CommitKeepsInv | backend/app/routers/risk.py:118-119 | a commit made outside the service lock keeps it |
| CacheProtocol.InvalidateKeepsInv | backend/app/service.py:265-268 | an invalidation keeps it and settles its commit |
| CacheProtocol.RunKeepsInv | backend/app/service.py:249-294 | the invariant over every interleaving; nothing acknowledged is forgotten |
| CacheProtocol.Coherence | backend/app/routers/risk.py:118-120 | whenever a cached snapshot differs from the store, some writer of its class has committed and not yet invalidated |
| CacheProtocol.StaleUntilInvalidated | backend/app/routers/classes.py:118-120 | the exception in coherence is needed: from any start there is a reachable state whose cached settings are not the store's while the writer still owes its invalidation |
| CacheProtocol.ReadYourWrites | backend/app/routers/risk.py:96-100 | once an invalidation has returned, whatever is handed out later, cached, fresh or stale, is in each of its parts of that commit's version or a later one; `CacheContents.CommittedHoursAreRead` says what that version holds |
| CacheProtocol.MonotoneReads | backend/app/service.py:249-263 | of any two calls for a class, with any run of events between their returns, the later one hands out no older part than the earlier one did |
| CacheProtocol.SnapshotIsNearlyOneView | backend/app/service.py:279-294 | a snapshot's baselines, updates and settings are the class's at versions in that order, and all of one version when no commit of the class fell between the first read and the last |
| CacheContents.StoreIsRun | backend/app/routers/risk.py:118-120 | after any interleaving the tables are the ledger run of the committed operations in commit order, and a class's settings the last ones saved |
| CacheContents.VersionIsPrefix | backend/app/service.py:288-290 | every version of a class that a snapshot can show is its listings and settings after a prefix of the commits |
| CacheContents.CommittedHoursAreRead | backend/app/routers/risk.py:96-100 | after any committed operation whose invalidation has returned, every later answer, cached, fresh or stale, resolves a student-week to the hours the operation left in effect, until another commit touches that week; its baselines and updates may be of different versions |
| CacheContents.SavedHoursAreRead | backend/app/routers/risk.py:118-122 | a saved week is read back with the requested hours, kind by kind |
| CacheContents.SavedSettingsAreRead | backend/app/routers/classes.py:118-120 | saved settings are in every later answer until the class's settings are saved again |
| CacheContents.WriterReadsBack | backend/app/routers/risk.py:118-122 | commit, invalidate and read is possible from every state with a free thread and a free lock, and hands out the listings with the operation in them |
| CacheContents.AnswersOfTheProtocol | backend/app/service.py:249-263 | what each way out of a snapshot call hands out and caches, hits and misses by age, and the stale fallback exactly when something is cached |
| CacheContents.SettingsByDefault | backend/app/store.py:39-45 | a class that never saved settings shows the default ones |
| Scoring.Aggregate | backend/app/scoring.py:33-46 | the dictionary holds each criterion's totals and no other key |
| Scoring.TotalOne | backend/app/scoring.py:36-45 | one entry's total is its own numbers, if it has both and the key is its own |
| Scoring.TotalSplit | backend/app/scoring.py:36-45 | totals of two lists add up |
| Scoring.TotalPermuted | backend/app/scoring.py:33-46 | totals do not depend on the order of the entries |
| Scoring.ScoreStudent | backend/app/scoring.py:49-96 | the two loops and the set sum compute the score, the parts and the missing keys |
| Scoring.ScoreIffPresent | backend/app/scoring.py:53-59 | there is a score exactly when some listed criterion counts |
| Scoring.UnrecordedEntryDropsOut | backend/app/scoring.py:38-39 | an entry without earned or possible points changes nothing |
| Scoring.PartsAre | backend/app/scoring.py:61-90 | each listed criterion's part: total, percentage, weight, share of the weights that count, points and whether it is missing |
| Scoring.MissingKeysAre | backend/app/scoring.py:95 | the missing keys are the listed criteria with a positive weight for which nothing was recorded, in order |
| Scoring.EffectiveWeightsSumTo100 | backend/app/scoring.py:58-77 | rescaled weights sum to a hundred if and only if no criterion that counts is listed twice |
| Scoring.ListedTwiceCountsTwice | backend/app/scoring.py:58-91 | a criterion listed twice takes eighty percent to a score of 160, with rescaled weights of 200 |
| Scoring.ScoreIsWeightedMean | backend/app/scoring.py:49-96 | score times the sum of the weights that count equals the sum of weight times percentage over the criteria that count |
| Scoring.ScoreBetween | backend/app/scoring.py:77-91 | the score lies between any bounds on the percentages that count, hence between the least and greatest |
| Scoring.ScoreIsPercentage | backend/app/scoring.py:25-96 | entries within their maximum give a score from 0 to 100 |
| Scoring.EntryOrderIsIrrelevant | backend/app/scoring.py:49-96 | permuting entries changes nothing |
| Scoring.SplittingIsIrrelevant | backend/app/scoring.py:44-45 | recording one piece of work as two entries changes nothing |
| Scoring.MissingCriteriaDropOut | backend/app/scoring.py:50 | criteria nothing was recorded for can be dropped without changing the score |
| Scoring.ScaleIsIrrelevant | backend/app/scoring.py:77 | multiplying all weights by a positive number changes neither score nor rescaled weights |
| Scoring.NormaliseWeights | backend/app/scoring.py:222-227 | computes the normalised weights |
| Scoring.NormalSums | backend/app/scoring.py:222-227 | non-negative weights normalise to a sum of a hundred, or to all zero if they were all zero |
| Scoring.NormalisingIsIrrelevant | backend/app/scoring.py:222-227 | normalising non-negative weights changes no score, no missing key and no rescaled weight |
| Ranking.RoundsHalfUp | backend/app/scoring.py:242-245 | a rounded score is the nearest tenth, a half upwards |
| Ranking.MissingRoundsAsMinusOne | backend/app/scoring.py:164-165 | a missing score sorts as minus one, behind every score from zero up |
| Ranking.LeqMeans | backend/app/scoring.py:169-176 | the order of rows: rounded score, rounded raw score, the first tie-breaker that differs, the name |
| Ranking.StringLeqMeans | backend/app/scoring.py:174 | names compare at the first difference, a prefix coming first |
| Ranking.LoweredIsPreorder | backend/app/scoring.py:174 | comparing lower-cased names is a total preorder, whatever lower-casing does |
| Ranking.StableSortSorts | backend/app/scoring.py:169-176 | sorting gives a permutation in key order |
| Ranking.StableSortStable | backend/app/scoring.py:169-176 | rows that compare equal keep their order |
| RankRows.SortRows | backend/app/scoring.py:169-176 | the in-order insertion computes that stable sort |
| RankRows.NumberGroups | backend/app/scoring.py:177-187 | the numbering loop gives rank one plus the number of better rounded scores |
| RankRows.MarkTies | backend/app/scoring.py:188-190 | after the second loop a row is tied if and only if another row has its rounded score |
| RankRows.CountAbovePermuted | backend/app/scoring.py:160-191 | the number of better scores does not depend on the order |
| Gaps.RankAll | backend/app/scoring.py:160-191 | the result is a permutation in key order, with rank one plus the number of better scores and tied exactly when a score is shared |
| Gaps.RankingsAgree | frontend/services/scoring.js:136-170 | rank and tied flag are the same for any input order, tie-breakers and name order, so server and browser agree |
| Gaps.GapToNext | backend/app/scoring.py:208-212 | the backward scan stops at the last row of the group above, and finds none exactly at rank 1 |
| Gaps.GapToBelow | backend/app/scoring.py:215-219 | the forward scan stops at the first row of the group below |
| Gaps.GapsMeet | backend/app/scoring.py:194-219 | in a ranked table, if row j's gap to the next rank leads to row i's score, then row i has a gap to the rank below and the two are equal |
| Gaps.GapIsExact | backend/app/scoring.py:208-212 | in terms of counts: exactly the gap lifts a score to the next rank, any smaller number of tenths leaves the rank |
| Gaps.RankTable | backend/app/service.py:186-190 | every gap of the table leads to the nearest better and the nearest worse score, is missing exactly at the ends or without a score, and neighbouring groups show the same gap |
| Gaps.TableGapIsExact | backend/app/scoring.py:194-212 | adding a row's gap to its score and ranking the class again gives the rank of the group above; any smaller number of tenths leaves the rank unchanged |
| LeagueTable.WeightedHoursAre | backend/app/scoring.py:136-139 | the sum over the type weights is work, childcare and eldercare hours, each times its own weight, whatever other keys there are |
| LeagueTable.StudentWeeks | backend/app/service.py:127-155 | the loop keeps exactly the weeks with entries and a score |
| LeagueTable.EntriesAre | backend/app/service.py:135-136 | which stored entries a week's score is made of |
| LeagueTable.WindowsConcatenate | backend/app/service.py:127-155 | a week's row does not depend on the window it is in |
| LeagueTable.RollingMeetsTheOthers | backend/app/service.py:59-67 | a long enough rolling window is the cumulative one, one of length one the single week |
| LeagueTable.WindowsAre | backend/app/service.py:59-67 | the weeks of a window: the week itself, everything up to it, or the last n of that |
| LeagueTable.UnknownWeek | backend/app/service.py:60-62 | a week id that does not occur gives no window |
| LeagueTable.TableIsExplained | backend/app/service.py:158-185 | field by field, for every row: its weeks are the scored weeks of the window; each week's factor is one plus rate times the three weighted hours, at most the cap, and its score raw times factor, at most a hundred; score, raw, factor and hours times the number of weeks are the sums; the rest is the last week's; and exactly the students with a scored week have a row |
| LeagueTable.TenHoursMakeEightyEight | backend/app/scoring.py:142-150 | eighty raw points and ten work hours at one percent make 88 |
| LeagueTable.BuildRows | backend/app/service.py:158-190 | rows explained field by field as in `LeagueTable.TableIsExplained`, ranks, ties and both gaps of the whole table |
| LeagueTable.MeanBelow | backend/app/scoring.py:153-157 | a linear bound between values is one between their means |
| LeagueTable.WindowBounds | backend/app/service.py:59-190 | in every window mode each row has 0 <= raw <= score <= 100, score <= cap * raw and 1 <= factor <= cap |
| LeagueTable.TableUsesHoursInEffect | backend/app/service.py:128-145 | the hours behind a row are the hours in effect that the change log records |
| LeagueTable.UndoneRunLeavesTable | backend/app/service.py:158-190 | a ledger run of well-nested edits without approvals leaves the whole league table as it was |
| RiskRuns.RiskWeekly | backend/app/service.py:193-215 | the loop builds the history of the weeks from joining to the evaluated week |
| RiskRuns.HistoryIs | backend/app/service.py:197-214 | the history has one row for each week from joining, week 1 if not given, to the evaluated one, with whether the student has entries and the raw score only then |
| RiskRuns.HistoryExtends | backend/app/service.py:193-215 | the history at an earlier week is a prefix of the one at a later week; weeks are in term order as `_read` sorts them |
| RiskRuns.MissingRun | backend/app/risk.py:76-85 | the result is the length of the longest stretch of weeks without entries |
| RiskRuns.MissingDataNeverClears | backend/app/risk.py:192 | with a fixed threshold the missing-data signal, once on, stays on |
| RiskRuns.DeclineRun | backend/app/risk.py:61-73 | the result is the maximal falling suffix of the scored weeks |
| RiskRuns.RunIsTotalFall | backend/app/risk.py:61-73 | a falling run of n weeks means that the score fell by more than n tolerances in all |
| RiskRuns.NextWeekExtendsOrEnds | backend/app/risk.py:61-73 | one more scored week lengthens the falling run by one or ends it |
| PseudoCss.ScanUnquotedUrl | frontend/support.js:1498-1510 | finds the end of an unquoted url, or nothing when none starts here |
| PseudoCss.StripComments | frontend/support.js:1511-1541 | the loop computes the token-wise removal of comments |
| PseudoCss.SplitDeclarations | frontend/support.js:1542-1564 | the loop splits at the semicolons outside quotes, parentheses and urls |
| PseudoCss.ImportantifyText | frontend/support.js:1542-1566 | strip, split, trim, drop empty pieces, mark and join |
| PseudoCssLaws.StripIsClean | frontend/support.js:1511-1541 | reading the stripped text finds no comment, on every string, however quotes, escapes and urls are left open |
| PseudoCssLaws.CleanIsKept | frontend/support.js:1511-1541 | a text without comments is left as it is, quotes, escapes and urls included |
| PseudoCssLaws.StripIdempotent | frontend/support.js:1511-1541 | removing comments twice is removing them once |
| ScannerLaws.CommentIsSpace | frontend/support.js:1527-1530 | a comment becomes one space and the text behind it is kept |
| ScannerLaws.OpenCommentIsSpace | frontend/support.js:1528-1530 | a comment that is never closed runs to the end |
| ScannerLaws.CommentBehind | frontend/support.js:1511-1541 | a comment behind any text with closed strings and urls becomes a space there, and both sides are kept |
| ScannerLaws.QuotedIsKept | frontend/support.js:1516-1526 | a quoted string is kept whatever looks like a comment in it; an escaped quote does not end it |
| ScannerLaws.OpenQuoteIsKept | frontend/support.js:1516-1526 | a string that is never closed is kept to the end |
| ScannerLaws.UrlIsKept | frontend/support.js:1498-1510 | an unquoted url in any case is kept up to its parenthesis, whatever is in it |
| ScannerLaws.OpenUrlIsKept | frontend/support.js:1505-1509 | a url that is never closed is kept to the end |
| ScannerLaws.OtherIsKept | frontend/support.js:1531-1537 | any other character is kept and passed over |
| ScannerLaws.SplitLosesNothing | frontend/support.js:1544-1564 | the pieces joined by semicolons are the text |
| ScannerLaws.PieceComesFirst | frontend/support.js:1556-1558 | a closed piece, a semicolon and more text split into that piece and the pieces of the rest |
| ScannerLaws.ParenthesesCount | frontend/support.js:1554-1558 | parentheses hide semicolons level by level; a closing one too many is passed over |
| ScannerLaws.TrimMeans | frontend/support.js:1565 | trimming takes exactly the spaces from both ends |
| ScannerLaws.HasMarkMeans | frontend/support.js:1565 | a declaration is marked if it ends in an exclamation mark, any spaces and the word in any case |
| ScannerLaws.EveryPieceIsMarked | frontend/support.js:1542-1566 | every piece that is not blank, and nothing else, is in the result, in order, trimmed and with the mark unless it had one |
| ImportantLaws.MarkedText | frontend/support.js:1542-1566 | the result has no comments and splits into exactly the trimmed, marked, non-empty declarations of the input |
| ImportantLaws.JoinSplits | frontend/support.js:1564-1565 | joined marked declarations split back into themselves |
| ImportantLaws.EveryDeclarationMarked | frontend/support.js:1565 | every top-level declaration of the result ends in the mark |
| ImportantLaws.ImportantifyIdempotent | frontend/support.js:1542-1566 | marking twice is marking once, on every string |
| Expressions.ParensWrapWhole | frontend/support.js:237-247 | whether no parenthesis before the last character brings the depth to zero |
| Expressions.FindTopLevelEquality | frontend/support.js:248-262 | the first equality operator outside all brackets |
| Expressions.FindClose | frontend/support.js:274-285 | where the bracket that opened here closes |
| Expressions.ResolvePath | frontend/support.js:263-294 | the loop follows names, digits and bracketed keys and gives undefined on anything else |
| Expressions.ResolveText | frontend/support.js:205-236 | the mutual recursion terminates on every string and computes the resolver |
| ExpressionLaws.WrapsWholeIff | frontend/support.js:237-247 | added parentheses are recognised as one pair if and only if no prefix of the text closes more than it opens |
| ExpressionLaws.WrappingKeepsMeaning | frontend/support.js:208-210 | and then they do not change the value |
| ExpressionLaws.ResolveByTrim | frontend/support.js:206 | spaces around a text do not change the value |
| ExpressionLaws.OperatorsMean | frontend/support.js:211-224 | the four operators, spelled out: two compare strictly and loosely, the other two negate them |
| ExpressionLaws.NamesAre | frontend/support.js:203 | which texts are names |
| ExpressionLaws.KeysAre | frontend/support.js:270 | which texts are keys after a dot |
| ExpressionLaws.NumbersAre | frontend/support.js:204 | which texts are numbers |
| ExpressionLaws.JunkIsUndefined | frontend/support.js:289-291 | a path that goes on with anything but a dot or a bracket is undefined |
| ExpressionLaws.NoKeyIsUndefined | frontend/support.js:270-271 | so is a dot without a key |
| ExpressionLaws.UnclosedIsUndefined | frontend/support.js:275-285 | and a bracket that is never closed |
| ExpressionLaws.TextMeansValue | frontend/support.js:205-294 | printing an expression with the fewest parentheses and resolving the text gives the expression's value, on every host; quoted text may hold anything with balanced brackets and no "==" or "!=" outside them |
| ExpressionLaws.QuotedIff | frontend/support.js:211-234 | quoted text, taken alone, resolves to itself if and only if it has no equality operator outside its own brackets |
| ExpressionLaws.QuotedEqualityIsSplit | frontend/support.js:211-223 | the text a==b in quotes does not resolve to itself |

## Left out

- `SqlAlchemyStore` sessions, autoflush, engine setup, column upgrade and JSON columns: each public method is one atomic step over rows in primary-key order; timestamps are opaque non-empty strings.
- The store's own lock: a transaction is atomic here.
- HTTP handlers, tokens, role checks, telemetry and the fault switch: single-branch plumbing around the modelled calls. The decisions that reach `decide_baseline` are approved and rejected.
- Notes, roster, risk settings and the seeding of settings rows: separate tables without pointers or an order to keep.
- Calendar weeks and the edit window (`calendar_week_number`, `editable_week_numbers`): a date in a gap between weeks goes to the last week, so nothing monotone holds.
- Evidence and summary texts, display-name modes, levels and the remaining risk signals: easy or cosmetic.
- Floating-point rounding: scores are exact reals, the tolerance 1e-9 is a constant, ranked scores are integer tenths.
- Identifiers.ParseInt: covers ASCII digits, signs, blanks and underscores; the host parser also reads other decimal digits and spaces and limits the number of digits.
- UTF-16: text is a sequence of characters; the scanned delimiters are single units in either reading.
- Locale-aware name comparison and lower-casing: parameters; the ranking results hold for every total preorder on names.
- The browser's gap for a row without a score: `frontend/services/scoring.js:121` rounds a missing score to zero where the server returns nothing; the model has the server's rule.
- Expressions.Resolve: property access, the two equalities, truth and number reading are parameters of the host and have no effects; getters that throw or change state are not modelled.
- ExpressionLaws.TextMeansValue: does not cover quoted text with unbalanced brackets or with "==" or "!=" outside its brackets, because the bracket and operator searches of the surrounding expression take those for their own; `ExpressionLaws.QuotedIff` is exact for quoted text alone.
- Store.CommitmentStore.Seed: inserts baselines and weekly updates; the settings, risk settings and notes rows of the same source method are not modelled.
- Scoring.ScoreStudent: labels of criteria are not modelled, entries carry their criterion's key directly, and the set of present keys is summed in an arbitrary order.
- RankRows.SortRows: the host's sort is modelled as a stable insertion sort; its running time is not.
- LeagueTable.BuildRows: the source reads the fields of its rows from dictionaries that it extends in place; here ranks and gaps are separate results, and names come in as displayed.
- `resolved_weights` and the fallback to default weights: choosing between override, saved and default weights; the table and the history take weights as given.
- RiskRuns.RiskWeekly: the per-criterion totals kept for the other signals are not modelled.
- The rest of `frontend/support.js` (document walking, components, module loading) and `frontend/services/api.js` with its mock source.
