# Cooker: verified models of its self-contained engines

Cooker is a CI/CD server. This project models, in Dafny, the engines of it that decide something on their
own, in the form the code has (loops over mutable state as methods, tables and stores as classes, protocols
between goroutines as steps), and proves what their comments, tests and callers rely on, for all inputs and all runs.

- **Schedules** (`Text`, `TextWords`, `Calendar`, `CivilDates`, `CronParse`, `CronSyntax`, `CronGrammar`, `CronNext`,
  `CronFailure`, `CronGaps`, `Scheduler`, `SchedulerRuns`, `SchedulerGaps`, `SchedulerLoop`). Which texts are cron
  expressions is said by concatenation of their words and elements, and they compile to bitmasks; which minutes match is
  said by date, clock and Zeller's congruence; the calendar search with its month, day and hour jumps returns the least
  matching minute, and fails from exactly the instants given; under every pattern of failures a tick of the leader's loop
  fires a schedule exactly when a match has passed since the last fire that could be stored. The day rule is that of the
  crontab utility (IEEE Std 1003.1, INPUT FILES section).
- **Pipeline graph editor** (`Graphs`, `DagValidate`, `DagRanks`, `DagLayout`, `DagOrder`, `DagGeometry`, `DagPorts`,
  `DagRoutes`, `DagCrossings`, `DagEditor`, `DagActions`, `DagSessions`). Kahn's loop accepts exactly the acyclic graphs;
  repeated relaxation yields longest-path columns without gaps; boxes never touch, stages and ports stand in the order
  that keeps direct edges apart, bypass lanes run outside all boxes, and a bypass route meets a box under exactly the
  condition given; every editing session keeps valid DAGs and unique ids, and undo is exact up to 30 edits.
- **Job queue** (`JobQueue`, `JobMemory`, `JobPostgres`, `JobProtocol`, `JobPool`, `JobHistory`). One step relation says
  what an operation does; the in-memory methods and the SQL statements are both steps of it. Every interleaving keeps
  leases, attempts and key exclusion, every job's outcome is decided by its handlers' answers, and every field of a job
  tells which event set it, so no job runs before its backoff is over.
- **Bounded caches** (`LogHistory`, `LogStore`, `LogOrder`, `IdempotencyEviction`, `Idempotency`, `IdempotencyReach`,
  `IdempotencyStore`). The log store is the byte-capped end of the append history of the most recently used streams; a
  cached answer is always the last one stored, and the byte count is right under exactly the condition given, for
  single calls and for whole runs.
- **Small concurrent protocols** (`RateLimiter`, `RateStamps`, `RunCoordinator`), lock by lock and phase by phase.
- **Delays and lifecycles** (`Int64`, `Backoff`, `Retry`, `StateMachine`, `RunState`), with 64-bit arithmetic written out.

Instants are integers in nanoseconds since Go's zero time. A time zone is a fixed offset of whole minutes.
Clocks, random numbers, handler results, failures of the network or of a store, and the order in which a Go
map is walked are inputs or free choices, so every statement holds for all of them. In the log store and the
idempotency cache a string stands for its bytes.

Where the code does not do what its comments or the obvious reading say, the code is modelled and the exact
condition is proved:

- A cron step near 2^63 overflows the loop counter and selects values the syntax does not denote, even outside
  the field (`CronParse.PartExact`).
- `Next` gives up after four years. For a schedule that selects 29 February and no other date that exists it fails, exactly,
  from the last match of one leap year on for as long as the first match of the next is four years away or more
  (`CronGaps.FailsIff`): around a century such as 2100, 2200 or 2300 for about four years, and in other leap years at the
  instant of a once-a-day schedule itself, because the deadline is excluded (`CronGaps.LastMatchFailsIff`). The row then
  stays due and fires again at every tick in the gap (`SchedulerGaps.GapTicksAllFire`). "Last fired at t1, a row fires at
  t2 exactly when a match lies in (t1, t2]" holds of all failure-free runs if and only if the expression selects more than
  rare dates, or only dates that never come (`SchedulerGaps.AlwaysPunctualIff`, `SchedulerLoop.LoopPunctualIff`).
- `Store.DueBefore` is documented as ordered by due time; `MemoryStore.DueBefore` is not, so no order is claimed.
- `validate` recognises repeated connections by the text `from>to`, which two different edges can share
  (`DagValidate.ClashRefused`).
- A kind filter of empty names means any kind in memory and no kind in Postgres (`JobQueue.FiltersAgreeIff`).
- Stream keys are said never to collide; they do when an id holds a NUL (`LogHistory.KeyUniqueIff`).
- Replacing a cached idempotency key can subtract its size twice (`Idempotency.ReplacedKeyIsCountedIff`,
  `IdempotencyReach.CountedInEveryOrderIff`), and the map can outgrow its cap by all that was subtracted twice
  (`IdempotencyStore.CountIsShortBy`).
- An empty idempotency key confuses the search for the oldest entry (`IdempotencyEviction.VictimIsEarliestIff`,
  `IdempotencyReach.InOrderOfExpiryIff`). The one caller, `backend/internal/server/middleware_idempotency.go:33-40`, never
  passes an empty key.
- The rate limiter's sweep deletes the bucket of a listed key although a call has stamped it again between the sweep's
  two locks (`RateLimiter.FreshBucketDeleted`, `RateLimiter.StampedWhileListedIff`).
- With many lanes the legs of a bypass route enter the next or the previous column and can cross a box there
  (`DagRoutes.RouteCrossesIff`); lane 6 of the wide layout and lane 8 of the narrow one already do
  (`DagCrossings.RouteThroughBox`).
- `ratelimit.go` speaks of a non-nesting invariant; the slow path of `limiterFor` does nest its locks, which is
  still free of deadlock (`RateLimiter.NoDeadlock`).
- Between the capacity gate and `wg.Add` a permit is held while the wait group may be zero (`RunCoordinator.DrainedIff`).
- `NextDelay` and `Do` overflow for extreme policies, and `Policy.Max` is no bound when `Initial` exceeds it
  (`Backoff.ExactIff`, `Retry.DelaysExactIff`, `Retry.WaitsInRangeIff`, `Retry.LargeInitialIgnoresCeiling`).
- `FSM.Can` says yes on a self-loop that `Apply` refuses (`StateMachine.MachineFollowsTable`); no shipped table has one.

`dafny verify dfyconfig.toml` checks everything.

## Model

| member | source | states |
|---|---|---|
| Text.AtoiIff | backend/internal/scheduler/cron.go:76-104 | a text is read as the number n if and only if it is an optional sign and decimal digits that denote n, and n fits 64 bits |
| Text.AtoiOfItoa | backend/internal/scheduler/cron.go:83-98 | a printed number reads back as itself |
| Text.SplitOfJoin | backend/internal/scheduler/cron.go:68 | splitting a joined list gives the list |
| Text.FieldsOfJoin | backend/internal/scheduler/cron.go:49 | the fields of words joined by blanks are the words |
| TextWords.FieldsIff | backend/internal/scheduler/cron.go:49 | the fields of any text are the words it consists of, with white space anywhere between and around them |
| TextWords.TrimIff | backend/internal/scheduler/cron.go:69 | trimming leaves the text without the white space at its two ends |
| TextWords.SpaceIff | backend/internal/scheduler/cron.go:49 | white space is what the Unicode property White_Space lists |
| TextWords.FieldsOfTrim | backend/internal/scheduler/cron.go:49 | trimming first makes no difference to the fields |
| TextWords.SplitIff | backend/internal/scheduler/cron.go:68 | splitting takes a text apart at exactly the separators |
| CronParse.ParseBounds | backend/internal/scheduler/cron.go:87-110 | a decoded range lies inside the field's range |
| CronParse.ParsePart | backend/internal/scheduler/cron.go:69-110 | an accepted list element is in range, with a positive 64-bit step |
| CronParse.ParseParts | backend/internal/scheduler/cron.go:68-114 | a list that decodes gives one in-range part per element |
| CronGrammar.BoundsIff | backend/internal/scheduler/cron.go:86-110 | `*`, a range split at its first dash, or a number, in range: exactly these are read, and as these bounds |
| CronGrammar.ElementIff | backend/internal/scheduler/cron.go:69-110 | an element is accepted, as lo, hi and step, if and only if its text stands for them, said by concatenation of its pieces |
| CronGrammar.FieldAcceptedIff | backend/internal/scheduler/cron.go:66-119 | a field compiles if and only if each comma-separated element stands for something; no field is empty |
| CronGrammar.ExpressionAcceptedIff | backend/internal/scheduler/cron.go:48-63 | an expression is accepted if and only if it consists of five words whose comma-separated elements stand for values of 0-59, 0-23, 1-31, 1-12 and 0-6 |
| CronGrammar.ExpressionErrorIff | backend/internal/scheduler/cron.go:50-60 | the error counts the words when they are not five, and otherwise names the first word that is not a field |
| CronParse.FillRange | backend/internal/scheduler/cron.go:111-113 | the counting loop, with 64-bit wrap-around of its counter, sets exactly the bits the element hits |
| CronParse.ParseField | backend/internal/scheduler/cron.go:66-119 | the compiled field is the mask, or the first error, that the element list determines |
| CronParse.ParseFields | backend/internal/scheduler/cron.go:53-61 | fields compile in order and the first failing field ends the parse |
| CronParse.Parse | backend/internal/scheduler/cron.go:48-63 | five fields or an error; the error names the first bad field |
| CronParse.PartExact | backend/internal/scheduler/cron.go:111-113 | an element sets exactly the values lo + k·step up to hi if and only if lo + 2·step stays below 2^64 |
| CronParse.HugeStepStrays | backend/internal/scheduler/cron.go:74-80 | a step of 2^63 − 1 is accepted and sets bits the syntax does not denote |
| CronParse.HugeStepLeavesRange | backend/internal/scheduler/cron.go:108-113 | such a step can even set a bit outside the field's range |
| CronParse.FieldMaskMeaning | backend/internal/scheduler/cron.go:66-119 | a bit is set exactly when some element hits it; every denoted value is set and there is one; the bits are exactly the denoted values if and only if every stray of one element is denoted by some element |
| CronSyntax.ParsePrintedElement | backend/internal/scheduler/cron.go:69-110 | a printed list element decodes to what it means, or is out of range |
| CronSyntax.FieldRoundTrip | backend/internal/scheduler/cron.go:66-119 | printing a list of values, ranges and steps and compiling the text selects exactly the values the list means |
| CronSyntax.ExpressionRoundTrip | backend/internal/scheduler/cron.go:48-63 | the same for whole expressions: parse after print gives the five meanings |
| Calendar.YearOf | backend/internal/scheduler/cron.go:144 | the Gregorian year of a day number, as `time.Time` reports it |
| Calendar.MonthOf | backend/internal/scheduler/cron.go:142 | the month of a day number lies between the month's first day and the next month's |
| Calendar.DateRoundTrip | backend/internal/scheduler/cron.go:171 | year, month and day of the day number of a date are that date |
| CivilDates.DayNumberIs | backend/internal/scheduler/cron.go:171 | days are counted as the closed form of the Gregorian calendar counts them |
| CivilDates.WeekdayIs | backend/internal/scheduler/cron.go:157 | the day of the week of every date is the one Zeller's congruence gives |
| CivilDates.NewYear2024 | backend/internal/scheduler/cron.go:157 | 1 January 2024 was a Monday |
| CivilDates.MatchesIff | backend/internal/scheduler/cron.go:142-182 | a minute matches if and only if month, hour and minute of its date and clock are selected and its day is, by day of the month and day of the week |
| CivilDates.DateOfMinute | backend/internal/scheduler/cron.go:142-182 | every minute has such a date and clock |
| CivilDates.YearsLater | backend/internal/scheduler/cron.go:140 | years later is the same clock on the same date; a missing 29 February counts on to 1 March |
| Calendar.AddYearsForward | backend/internal/scheduler/cron.go:140 | four years later is later, so the search has a deadline ahead of it |
| CronNext.NextUnique | backend/internal/scheduler/cron.go:126-133 | "the least matching minute before from + 4 years, or an error" has one answer |
| CronNext.MonthJump | backend/internal/scheduler/cron.go:142-151 | jumping to the next month skips no matching minute |
| CronNext.DayJump | backend/internal/scheduler/cron.go:169-173 | jumping to the next midnight skips no matching minute |
| CronNext.HourJump | backend/internal/scheduler/cron.go:174-177 | jumping to the next hour skips no matching minute |
| CronNext.FullMask | backend/internal/scheduler/cron.go:187-193 | the mask of all values of a field, and equality with it says the field is unrestricted |
| CronNext.DayOk | backend/internal/scheduler/cron.go:152-168 | the four-way switch is the day rule of the crontab utility |
| CronNext.NextMonth | backend/internal/scheduler/cron.go:143-149 | year and month arithmetic lands on the first of the next month, also in December |
| CronNext.Advance | backend/internal/scheduler/cron.go:142-182 | one iteration finds a match or moves forward over non-matching minutes only |
| CronNext.Next | backend/internal/scheduler/cron.go:133-185 | the result is the least whole minute after from that matches, if it lies before from + 4 years, and an error exactly otherwise |
| CronFailure.ParsedIsInhabited | backend/internal/scheduler/cron.go:115-117 | every parsed expression selects a value in each field's range |
| CronFailure.NeverFails | backend/internal/scheduler/cron.go:133-185 | with a restricted weekday, or a selected date that every year has, Next succeeds from every instant |
| CronGaps.SometimesFails | backend/internal/scheduler/cron.go:131-140 | Next can fail at some instant if and only if the weekday is unrestricted and every selected date is missing from common years |
| CronFailure.AlwaysFails | backend/internal/scheduler/cron.go:131-140 | Next fails at every instant if and only if the weekday is unrestricted and no selected date exists in any year |
| CronGaps.FailsIff | backend/internal/scheduler/cron.go:131-141 | for an expression that selects 29 February and no other date that exists: Next fails from an instant if and only if the last match of a leap year is not after it, and the first match of the next leap year is not before four years later |
| CronGaps.GapFails | backend/internal/scheduler/cron.go:131-141 | in such a gap Next fails |
| CronGaps.LeapGap | backend/internal/scheduler/cron.go:140-141 | 1 March of any leap year whose fourth successor is common, such as 2096, 2196 or 2296, lies in such a gap |
| CronGaps.LastMatchFailsIff | backend/internal/scheduler/cron.go:140-141 | from exactly the last match of a 29 February, Next fails if and only if the fourth year after is common or the schedule fires once a day: the search excludes its own deadline |
| CronGaps.GapIsEmpty | backend/internal/scheduler/cron.go:142-182 | no minute matches between the last match of a leap year and the first one of the next |
| Scheduler.MemoryStore.constructor | backend/internal/scheduler/store.go:41-43 | a new table is empty |
| Scheduler.MemoryStore.Create | backend/internal/scheduler/store.go:65-81 | empty and duplicate ids are refused; otherwise exactly the new row is added |
| Scheduler.MemoryStore.Update | backend/internal/scheduler/store.go:83-92 | an existing row is replaced, an unknown id is an error and changes nothing |
| Scheduler.MemoryStore.DueBefore | backend/internal/scheduler/store.go:104-114 | exactly the enabled rows due by the cutoff, each once, in any order |
| Scheduler.MemoryStore.MarkFired | backend/internal/scheduler/store.go:116-130 | last run, run id and next due time change together, in that row only |
| Scheduler.Runner.Fire | backend/internal/scheduler/scheduler.go:177-204 | one row: disabled if its expression is bad, left due if enqueueing, the search or the write fails, otherwise moved to the least next match |
| Scheduler.FireMovesOn | backend/internal/scheduler/schedule.go:35-44 | by the clock of the row's zone, or of UTC for an empty or unknown name: a stored fire records its instant and run id and waits for the least match after now |
| Scheduler.BadRowIsDisabled | backend/internal/scheduler/scheduler.go:178-185 | a row whose expression does not parse is disabled when the store can write it, and enqueues nothing |
| Scheduler.OnlyDueRowsFire | backend/internal/scheduler/scheduler.go:167-173 | a row that is disabled or not yet due does nothing |
| Scheduler.JobsAt | backend/internal/scheduler/scheduler.go:189-191 | the jobs enqueued carry the pipelines of the fired rows and the run ids drawn for them |
| Scheduler.Runner.FireAll | backend/internal/scheduler/scheduler.go:171-173 | firing the due rows in any order changes each of them as if alone and enqueues one job per fired row |
| Scheduler.Runner.Tick | backend/internal/scheduler/scheduler.go:165-175 | every row takes its own step; when reading the due rows fails, or a row is not due, nothing of it changes; the jobs enqueued are those of the fired rows |
| SchedulerLoop.LeadLoop | backend/internal/scheduler/scheduler.go:135-160 | a leader's term is a sequence of ticks over one table, any of which may fail to read it |
| SchedulerLoop.RowRuns | backend/internal/scheduler/scheduler.go:165-175 | seen from one row, the loop is a run of that row's steps |
| SchedulerLoop.LoopFiresOnMatches | backend/internal/scheduler/scheduler.go:135-204 | without failures, and for expressions other than those of rare dates, the loop enqueues a schedule at a tick exactly when a matching minute lies between its last fire and the tick |
| SchedulerLoop.LoopPunctualIff | backend/internal/scheduler/scheduler.go:135-204 | every failure-free loop does so for a parsed expression if and only if it selects more than rare dates, or only dates that never come |
| SchedulerRuns.NextRunFromSchedule | backend/internal/handler/schedules.go:197-203 | a created or edited schedule waits for the first match after now on the clock of its zone, or is refused |
| SchedulerRuns.TickKeepsWaiting | backend/internal/scheduler/scheduler.go:165-204 | after a tick a row waits for the first match after the fire that was stored last |
| SchedulerRuns.WaitingThroughout | backend/internal/scheduler/scheduler.go:165-204 | the same after every tick of every run, whatever fails |
| SchedulerRuns.FiresIffMatched | backend/internal/scheduler/scheduler.go:165-204 | for every failure pattern: a tick enqueues exactly when a match has passed since the last stored fire and both the read and the enqueueing work; nothing due is dropped |
| SchedulerRuns.FiresExactlyOnMatches | backend/internal/scheduler/scheduler.go:165-204 | without failures, and with more than rare dates selected, a row last fired at t1 fires at t2 exactly when a match lies in (t1, t2], once for any number of missed ones |
| SchedulerGaps.AlwaysPunctualIff | backend/internal/scheduler/scheduler.go:165-204 | every failure-free run of every waiting row does so, for a parsed expression, if and only if it selects more than rare dates, or only dates that never come |
| SchedulerGaps.UnpunctualRun | backend/internal/scheduler/cron.go:131-141 | for every other expression: a run of two ticks that both fire, with no match in between |
| SchedulerGaps.GapTicksAllFire | backend/internal/scheduler/scheduler.go:196-200 | at instants in one such gap a due row for 29 February fires at every tick that can read and enqueue, though no match lies between two of them |
| SchedulerRuns.FailedSearchRefires | backend/internal/scheduler/scheduler.go:196-200 | a fire whose next-time search fails leaves the row due, so the next tick fires it again |
| Graphs.WalksAreShort | website/workspace-dag.js:61 | walks of an acyclic graph never meet a stage twice |
| Graphs.PredecessorsMakeCycle | website/workspace-dag.js:62 | stages that all keep an unvisited predecessor contain a cycle |
| Graphs.TopologicalIsAcyclic | website/workspace-dag.js:62 | an order in which every edge leads forward rules out cycles |
| DagValidate.Follow | website/workspace-dag.js:62 | following the edges out of a stage keeps the degree counts and queues exactly the stages that become ready |
| DagValidate.TakeFirst | website/workspace-dag.js:62 | a stage leaves the queue only after all its predecessors |
| DagValidate.Kahn | website/workspace-dag.js:61-65 | the loop visits every stage if and only if the graph is acyclic |
| DagValidate.ReadEdges | website/workspace-dag.js:55-60 | adjacency, degrees and edge problems are those of the edges kept |
| DagValidate.Dedup | website/workspace-dag.js:52 | every value once, in the order of first occurrences; nothing is lost exactly when all values differ |
| DagValidate.Validate | website/workspace-dag.js:51-67 | each problem is reported exactly when the graph has it, and once |
| DagValidate.AcceptsIffValid | website/workspace-dag.js:51-67 | no problem is reported if and only if the graph is a valid DAG and no two edges share a key |
| DagValidate.PlainKeys | website/workspace-dag.js:58-59 | when no source id contains `>`, keys differ exactly when edges do |
| DagValidate.ClashRefused | website/workspace-dag.js:58-59 | a valid DAG whose two edges share a key is refused as having a repeated connection |
| DagValidate.ClashExample | website/workspace-dag.js:58-59 | for instance `a` → `b>c` and `a>b` → `c` |
| DagRanks.Relax | website/workspace-dag.js:87 | one relaxation round makes the ranks right for walks one edge longer |
| DagRanks.Ranks | website/workspace-dag.js:86-87 | after as many rounds as stages, each rank is the length of a longest walk to the stage |
| DagRanks.EdgesAscend | website/workspace-dag.js:87 | every edge goes to a strictly higher rank |
| DagRanks.RankBounds | website/workspace-dag.js:87 | ranks are below the number of stages |
| DagRanks.NoGaps | website/workspace-dag.js:89 | below a used rank every rank is used |
| DagLayout.Columns | website/workspace-dag.js:88-89 | column r holds exactly the stages of rank r in graph order, and the last column is used |
| DagLayout.ColumnsFull | website/workspace-dag.js:88-89 | no column is empty |
| DagLayout.PlaceAll | website/workspace-dag.js:91-94 | every stage of the columns, and nothing else, is placed |
| DagLayout.LongestColumn | website/workspace-dag.js:90 | the longest column, at least 1 |
| DagLayout.CountLanes | website/workspace-dag.js:95-96 | the skipping edges are counted per side |
| DagLayout.ShiftAll | website/workspace-dag.js:99 | every position moves by the margin, across the drawing only |
| DagLayout.Layout | website/workspace-dag.js:85-101 | the drawing: longest-path columns, positions, margins that fit the lanes, canvas size |
| DagGeometry.BoxInside | website/workspace-dag.js:91-100 | every box lies in the canvas and between the two lane margins |
| DagGeometry.BoxesApart | website/workspace-dag.js:91-94 | boxes of different stages do not touch |
| DagGeometry.Connections | website/workspace-dag.js:102-128 | side, lane, bypass coordinate and both ports of every edge |
| DagGeometry.LaneMissesBoxes | website/workspace-dag.js:115-123 | the long leg of a skipping edge runs inside the canvas and strictly outside the band of all boxes |
| DagRoutes.RouteCrossesIff | website/workspace-dag.js:116-125 | the drawn route of a skipping edge meets a box if and only if one of its two turns falls into the column of the box, with the box between port and lane, or the box is level with a port on the way to the turn |
| DagRoutes.RouteMissesBoxes | website/workspace-dag.js:116-125 | the whole route of a skipping edge misses every box in lanes 0 to 5 of the wide layout and 0 to 7 of the narrow one |
| DagCrossings.RouteThroughBox | website/workspace-dag.js:116-125 | in every wide drawing of a certain six-stage pipeline the route on lane 6 crosses a box, and in every narrow one the route on lane 8: both bounds are tight |
| DagCrossings.DrawCrossing | website/workspace-dag.js:85-128 | layout and the connections draw these crossings |
| DagCrossings.PipelineIsDag | website/workspace-dag.js:51-67 | that pipeline is a valid DAG |
| DagGeometry.LanesDistinct | website/workspace-dag.js:115-123 | no two skipping edges share a lane coordinate |
| DagGeometry.PortsSeparate | website/workspace-dag.js:110-114 | ports at one stage are different points inside the side of its box, in the comparator's order |
| DagPorts.DirectPortsIff | website/workspace-dag.js:107-111 | of two edges to or from neighbouring columns at one stage, the one whose other end lies first across the drawing has the first port; the graph's order decides ties only |
| DagPorts.PassingPortsOutside | website/workspace-dag.js:107-111 | edges that pass the boxes have their ports outside those of the direct edges, on the side on which they pass |
| DagPorts.PassingPortsInOrder | website/workspace-dag.js:107-111 | edges that pass on one side keep the order of the graph |
| DagPorts.PortsEven | website/workspace-dag.js:112-114 | the ports at one stage divide the side of its box evenly |
| DagPorts.SideIff | website/workspace-dag.js:104-108 | an edge skips when it goes on by more than one column, and passes before the boxes exactly when its end does not lie before its start |
| DagPorts.LaneIs | website/workspace-dag.js:115-123 | skipping edges take the lanes of their side in the order of the graph, each 44 further in |
| DagPorts.InnermostLane | website/workspace-dag.js:95-98 | the margins are just wide enough for the lanes |
| DagOrder.RanksStandInOrder | website/workspace-dag.js:91-93 | stages of a later rank stand further on, clear of the gap between columns |
| DagOrder.StagesStandInOrder | website/workspace-dag.js:88-94 | stages of one rank stand in the order of the graph, clear of each other |
| DagOrder.ColumnsCentred | website/workspace-dag.js:91-93 | all columns are centred on one line |
| DagOrder.CanvasFits | website/workspace-dag.js:97-100 | the canvas is no larger than the columns, the margins and the lanes need |
| DagEditor.Editor.constructor | website/workspace-dag.js:44-49 | a fresh draft with empty history, and a selected stage |
| DagEditor.Editor.Remember | website/workspace-dag.js:149 | the draft is pushed and only the last 30 are kept |
| DagEditor.Editor.Connect | website/workspace-dag.js:269-274 | the edge is added and remembered exactly if validate accepts the result; otherwise nothing changes |
| DagEditor.Editor.Add | website/workspace-dag.js:275-279 | a stage with the next counter id, after the chosen stage or none |
| DagEditor.Editor.Remove | website/workspace-dag.js:260 | the shown stage and its edges go, unless it is the only stage; the call fails, with an empty draft, exactly when all its stages share the id |
| DagEditor.Editor.RemoveDependency | website/workspace-dag.js:253 | exactly the edge into the selected stage goes |
| DagEditor.Editor.Rename | website/workspace-dag.js:266-268 | only the name of the shown stage changes |
| DagEditor.Editor.Undo | website/workspace-dag.js:259 | the last remembered draft comes back, with a selection that exists in it |
| DagEditor.Editor.Save | website/workspace-dag.js:258 | an accepted draft becomes the saved one and is not dirty |
| DagActions.AddLaw | website/workspace-dag.js:275-279 | the new stage has the next number, the given name and kind, and one predecessor, the chosen stage, or none; what was there stays, in order |
| DagActions.RenameLaw | website/workspace-dag.js:266-268 | the selected stage gets the name and nothing else changes |
| DagActions.ConnectLaw | website/workspace-dag.js:269-274 | an accepted edge leads from the chosen stage to the selected one |
| DagActions.RemoveLaw | website/workspace-dag.js:260 | the other stages and the edges between them stay, in order, and the first one is selected |
| DagActions.RemoveDependencyLaw | website/workspace-dag.js:253 | the other edges stay, in order |
| DagActions.UndoLaw | website/workspace-dag.js:259 | the last remembered draft comes back; the selection stays if it can |
| DagActions.SaveLaw | website/workspace-dag.js:258 | an accepted draft is saved as it is, another one is not |
| DagActions.NamelessLaw | website/workspace-dag.js:267-276 | without a name nothing is added or renamed |
| DagEditor.EdgeKeepsAcyclic | website/workspace-dag.js:271 | a new edge keeps the graph acyclic if and only if its end does not already lead to its start |
| DagSessions.ConnectAcceptedIff | website/workspace-dag.js:269-273 | with plain ids, Connect succeeds if and only if both stages exist, the edge is new and the selected stage does not lead to the other |
| DagSessions.AddedIsDag | website/workspace-dag.js:277-278 | adding a stage under a fresh id keeps the DAG |
| DagSessions.RemovedIsDag | website/workspace-dag.js:260 | removing a stage keeps the DAG |
| DagSessions.WithoutEdgeIsDag | website/workspace-dag.js:253 | removing a dependency keeps the DAG |
| DagSessions.RenamedIsDag | website/workspace-dag.js:266-268 | renaming keeps the DAG and its ids |
| DagSessions.ConnectedIsDag | website/workspace-dag.js:269-273 | what validate accepts is a valid DAG |
| DagSessions.StepKeepsGood | website/workspace-dag.js:253-279 | every action keeps the drafts valid, the ids counted and the selection in place |
| DagSessions.OpeningIsGood | website/workspace-dag.js:44-49 | a session opens in such a state on a valid DAG without ids of the form stage-n |
| DagSessions.SessionStaysGood | website/workspace-dag.js:253-279 | in every session every draft and every remembered draft is a valid DAG, history holds at most 30, and the selection exists |
| DagSessions.AddedIdsDiffer | website/workspace-dag.js:277 | no stage id is used twice in a session, across removals and undo |
| DagSessions.BalancedEditsUndo | website/workspace-dag.js:253-279 | any stretch of a session that undoes all its edits, with never more than 30 open, ends with the draft it began with |
| DagSessions.HistoryIsLastThirty | website/workspace-dag.js:149 | after a row of edits the history is the last 30 drafts of everything remembered |
| DagSessions.EveryDraftAccepted | website/workspace-dag.js:258 | when the opening ids hold no `>`, validate accepts every draft of the session |
| JobQueue.StepAgrees | backend/internal/jobqueue/jobqueue.go:94-100 | equal states and the same operation give equal answers and states, the two claim stamps aside; two claims differ only in ties |
| JobPostgres.SameRowsIff | backend/internal/jobqueue/postgres.go:133-231 | stamps included, the statements change a row as memory does, except that Reschedule to failed clears the two stamps of a row that has them |
| JobQueue.FiltersAgreeIff | backend/internal/jobqueue/memory.go:248-260 | the stores filter kinds alike if and only if the filter is empty or names a kind |
| JobMemory.Memory.Enqueue | backend/internal/jobqueue/memory.go:26-64 | an empty kind or a used id is refused; otherwise one pending job with the defaults is added |
| JobPostgres.Postgres.Enqueue | backend/internal/jobqueue/postgres.go:30-77 | an empty kind or a used id is refused; otherwise one pending job with the defaults is added, as one atomic step of the same relation |
| JobMemory.Memory.Dequeue | backend/internal/jobqueue/memory.go:69-113 | a runnable job with the least run time is claimed for the worker, or there is none |
| JobPostgres.Postgres.Dequeue | backend/internal/jobqueue/postgres.go:88-144 | a runnable job with the least run time is claimed for the worker, or there is none, as one atomic step of the same relation |
| JobMemory.Memory.Complete | backend/internal/jobqueue/memory.go:116-132 | the owner's running job succeeds; others get the right error and change nothing |
| JobPostgres.Postgres.Complete | backend/internal/jobqueue/postgres.go:186-199 | the owner's running job succeeds; others get the right error and change nothing, as one atomic step of the same relation |
| JobMemory.Memory.Fail | backend/internal/jobqueue/memory.go:134-151 | the owner's running job fails with the error text |
| JobPostgres.Postgres.Fail | backend/internal/jobqueue/postgres.go:201-215 | the owner's running job fails with the error text, as one atomic step of the same relation |
| JobMemory.Memory.Reschedule | backend/internal/jobqueue/memory.go:153-183 | the owner's job goes back to pending, or fails when its attempts are used up |
| JobPostgres.Postgres.Reschedule | backend/internal/jobqueue/postgres.go:217-237 | the owner's job goes back to pending, or fails when its attempts are used up, as one atomic step of the same relation |
| JobMemory.Memory.DeleteOlderThan | backend/internal/jobqueue/memory.go:208-226 | exactly the finished jobs from before the cutoff go, and are counted |
| JobPostgres.Postgres.DeleteOlderThan | backend/internal/jobqueue/postgres.go:299-309 | exactly the finished jobs from before the cutoff go, and are counted, as one atomic step of the same relation |
| JobMemory.Memory.RunningKeys | backend/internal/jobqueue/memory.go:74-79 | exactly the non-empty keys of running jobs |
| JobMemory.Memory.Candidates | backend/internal/jobqueue/memory.go:83-98 | exactly the runnable jobs |
| JobMemory.Earliest | backend/internal/jobqueue/memory.go:102-105 | sorting and taking the first gives a candidate due earliest |
| JobMemory.Memory.Get | backend/internal/jobqueue/memory.go:185-193 | the stored job or nothing |
| JobMemory.Memory.Stats | backend/internal/jobqueue/memory.go:195-203 | the number of jobs per status |
| JobPostgres.Postgres.CheckOwnedRowAffected | backend/internal/jobqueue/postgres.go:316-332 | a statement that hit no row is told apart: no such job, or not the caller's |
| JobProtocol.LateCheckIff | backend/internal/jobqueue/postgres.go:316-332 | when others run between the update and that lookup, its answer is still the one due at the update if and only if they did not delete the job |
| JobPostgres.OneRow | backend/internal/jobqueue/postgres.go:186-194 | a statement that names an id, an owner and the running status hits that row exactly when the caller owns it |
| JobPostgres.RescheduleStatement | backend/internal/jobqueue/postgres.go:217-231 | the CASE columns are the in-memory transition |
| JobProtocol.StepChanges | backend/internal/jobqueue/jobqueue.go:103-138 | a step changes only the job it claims, reports on or deletes |
| JobProtocol.OnlyOwnerFinishes | backend/internal/jobqueue/memory.go:116-183 | a running job is changed only by its owner's report and is never deleted |
| JobProtocol.TerminalIsFinal | backend/internal/jobqueue/memory.go:208-226 | a finished job changes only by deletion, exactly when it is older than the cutoff |
| JobProtocol.StepKeepsInv | backend/internal/jobqueue/memory.go:69-226 | attempts within bounds, owner exactly while running, finish stamp exactly when finished, one running job per key |
| JobProtocol.InvThroughout | backend/internal/jobqueue/memory.go:69-226 | the same over every interleaving of any number of workers and clients |
| JobProtocol.BudgetShrinks | backend/internal/jobqueue/worker.go:136-175 | a measure on each job decreases on every claim and report and changes on nothing else |
| JobProtocol.UsesAreBounded | backend/internal/jobqueue/worker.go:136-175 | a job sees at most two steps per allowed attempt |
| JobPool.Handle | backend/internal/jobqueue/worker.go:136-175 | a returned nil completes the job, an error reschedules it after the backoff of its attempt |
| JobPool.HandleInPostgres | backend/internal/jobqueue/worker.go:136-175 | the same against the Postgres store |
| JobPool.ReportsAreAccepted | backend/internal/jobqueue/worker.go:156-174 | a worker's report on the job it holds is never refused |
| JobPool.StepKeepsLeases | backend/internal/jobqueue/worker.go:97-130 | each busy worker owns the job it holds, and each running job is held by its owner |
| JobPool.OneHandlerPerKey | backend/internal/jobqueue/jobqueue.go:13-17 | no two workers handle the same job or two jobs of one key at a time |
| JobPool.OutcomeOfJobs | backend/internal/jobqueue/worker.go:136-175 | dispatches equal counted attempts and never exceed the maximum; succeeded exactly when a dispatch returned nil; failed exactly when every allowed attempt returned an error |
| JobHistory.RowTellsItsStory | backend/internal/jobqueue/memory.go:26-183 | in every run a job keeps what it was enqueued with; until it has finished it is due at the instant given by its enqueueing or by the last error report; it carries the last error; its stamps are those of the last event about it |
| JobHistory.NeverClaimedEarly | backend/internal/jobqueue/worker.go:161-171 | no job is claimed before the instant given with the last error report on it, or before the one it was enqueued for |
| JobHistory.ClaimsEarliest | backend/internal/jobqueue/memory.go:69-113 | a poll takes the earliest due of the pending jobs of a wanted kind and with a free key, and comes back empty only when there is none |
| JobHistory.RefusedIff | backend/internal/jobqueue/memory.go:116-183 | a report is accepted exactly from the worker that holds the running job; the two refusals tell a missing job from another's |
| JobHistory.SweptIff | backend/internal/jobqueue/memory.go:208-226 | a sweep deletes a job exactly when the report that finished it came before the cutoff |
| LogHistory.KeyUniqueIff | backend/internal/logstore/memory.go:60-65 | run and stage id are recovered from the key if and only if neither holds a NUL |
| LogHistory.FitIsLongest | backend/internal/logstore/memory.go:91-97 | trimming leaves the longest suffix within the cap, or the last entry alone |
| LogHistory.LongestUnique | backend/internal/logstore/memory.go:91-97 | there is one such suffix |
| LogHistory.FitIncremental | backend/internal/logstore/memory.go:94-97 | trimming after each append keeps what trimming once at the end would |
| LogHistory.LiveStep | backend/internal/logstore/memory.go:83-108 | the bounded list with its eviction is the end of the full recency order |
| LogHistory.NothingEvicted | backend/internal/logstore/memory.go:99-108 | with no more keys than streams, each stream is the byte-capped view of all its appends |
| LogHistory.RetainedIsSuffix | backend/internal/logstore/memory.go:88-111 | what is retained is always the end of what was appended |
| LogStore.Stream.Push | backend/internal/logstore/memory.go:88-97 | append and trim |
| LogStore.Memory.constructor | backend/internal/logstore/memory.go:45-58 | caps below 1 count as 1 |
| LogStore.Memory.Touch | backend/internal/logstore/memory.go:78-86 | the stream is created or moved to the back of the list |
| LogStore.Memory.EvictStreams | backend/internal/logstore/memory.go:99-108 | the list becomes its last maxStreams streams |
| LogStore.Memory.Append | backend/internal/logstore/memory.go:72-111 | after any appends the live streams are the maxStreams last used keys, each holding the longest fitting end of its appends since it was created |
| LogStore.Memory.Read | backend/internal/logstore/memory.go:116-140 | the retained entries after since, in order |
| LogOrder.RecencyByLastUse | backend/internal/logstore/memory.go:78-86 | the recency order lists the keys by their last append |
| LogOrder.LiveAreLatest | backend/internal/logstore/memory.go:99-108 | no evicted stream was used after a live one, and none is evicted below maxStreams |
| LogOrder.SinceCreatedIs | backend/internal/logstore/memory.go:78-86 | a stream holds what was appended since the last moment its key was not live |
| LogOrder.AllOfIs | backend/internal/logstore/memory.go:88-90 | the appends to a key are taken in order |
| LogOrder.BytesAreOfLines | backend/internal/logstore/memory.go:90 | the cap counts the bytes of the lines |
| LogOrder.NewerIs | backend/internal/logstore/memory.go:116-140 | Read gives exactly the entries after since, in the order they are kept |
| IdempotencyEviction.VictimIsEarliestIff | backend/internal/idempotency/idempotency.go:112-119 | the scan finds an earliest expiry in every map order if and only if the empty key is not cached with others and strictly first to expire |
| Idempotency.SpentIsRemoved | backend/internal/idempotency/idempotency.go:120-122 | an eviction lowers the count by exactly what it removes |
| Idempotency.SurvivorsExpireLater | backend/internal/idempotency/idempotency.go:111-124 | when the empty key, if cached, expires no earlier than any other entry, no survivor of an eviction expires before a victim |
| IdempotencyReach.InOrderOfExpiryIff | backend/internal/idempotency/idempotency.go:111-124 | evictions go in order of expiry for every map order and target if and only if the empty key, if cached, expires no earlier than any other entry |
| IdempotencyReach.KeyEvictedIff | backend/internal/idempotency/idempotency.go:98-103 | some map order lets an eviction reach the replaced key if and only if the entries that can outlast it exceed the target: those that expire no earlier, the empty key's entry judged by its own rule |
| Idempotency.KeyEvictedWithoutTies | backend/internal/idempotency/idempotency.go:98-103 | without ties and without the empty key this is so in every map order, and the entries are the later ones |
| Idempotency.NewKeyIsCounted | backend/internal/idempotency/idempotency.go:94-107 | a Set of an uncached key keeps the count exact and within the cap or the size of the new entry |
| Idempotency.SetDrift | backend/internal/idempotency/idempotency.go:94-107 | from any state, what the count lacks grows by exactly the size of a replaced entry that the Set evicts as well |
| Idempotency.ReplacedKeyIsCountedIff | backend/internal/idempotency/idempotency.go:98-105 | a Set of a cached key keeps the count exact if and only if it does not evict the entry it replaces, or that entry is empty |
| IdempotencyReach.CountedInEveryOrderIff | backend/internal/idempotency/idempotency.go:98-105 | it does so in every map order if and only if the cap is off, or the entries that can outlast the replaced one fit the cap together with the new one, or the replaced entry is empty |
| Idempotency.DoubleSubtraction | backend/internal/idempotency/idempotency.go:98-105 | a concrete Set after which the map holds 11 bytes and the count says 5 |
| IdempotencyStore.Memory.Get | backend/internal/idempotency/idempotency.go:85-92 | a hit replays the most recent Set of the key, before its expiry |
| IdempotencyStore.Memory.Set | backend/internal/idempotency/idempotency.go:94-107 | the whole effect of a Set, with the entries it evicts |
| IdempotencyStore.Memory.EvictUntil | backend/internal/idempotency/idempotency.go:111-124 | entries go one earliest pick at a time until the count reaches the target or nothing is left |
| IdempotencyStore.Memory.FindOldest | backend/internal/idempotency/idempotency.go:113-119 | the scan over the map in some order |
| IdempotencyStore.Memory.Sweep | backend/internal/idempotency/idempotency.go:133-141 | exactly the expired entries go, with their sizes |
| IdempotencyStore.CountIsShortBy | backend/internal/idempotency/idempotency.go:94-141 | over every run of Sets and sweeps the count falls short of the total size by exactly the sizes subtracted twice; it stays within the cap or the newest entry, and the map within that plus the shortfall |
| IdempotencyStore.CountedIff | backend/internal/idempotency/idempotency.go:94-141 | so the count is exact after a run if and only if no Set in it evicted a non-empty entry it replaced: once lost it never comes right |
| RateLimiter.CallKeepsLocks | backend/internal/server/ratelimit.go:74-101 | readers, writer and lastMu are held exactly by the calls that are between lock and unlock |
| RateLimiter.SweepKeepsLocks | backend/internal/server/ratelimit.go:113-132 | the same for the sweep |
| RateLimiter.NextKeepsInvariant | backend/internal/server/ratelimit.go:74-134 | every bucket stays stamped, listed by the sweep, or being inserted under the write lock |
| RateLimiter.AlwaysSweepable | backend/internal/server/ratelimit.go:74-134 | in every interleaving of any number of calls with the sweep |
| RateLimiter.SweepLeavesNoneBehind | backend/internal/server/ratelimit.go:126-132 | when a sweep releases the write lock every bucket is stamped |
| RateLimiter.OnlyIdleKeysAreCollected | backend/internal/server/ratelimit.go:119-124 | only keys stamped before the cutoff are put on the stale list |
| RateLimiter.StampedWhileListedIff | backend/internal/server/ratelimit.go:113-132 | a listed key is stamped again when its bucket is deleted if and only if one of its calls stamps it between the two locks |
| RateLimiter.FreshBucketDeleted | backend/internal/server/ratelimit.go:113-132 | a reachable state in which the sweep deletes a bucket stamped at that very instant |
| RateLimiter.NoDeadlock | backend/internal/server/ratelimit.go:74-134 | whenever a call or a sweep is under way someone can move, although the slow path nests lastMu inside mu |
| RateStamps.StampIsLast | backend/internal/server/ratelimit.go:74-101 | a stamp is the instant of the last call that stamped its key |
| RateStamps.StaleMeansIdle | backend/internal/server/ratelimit.go:113-125 | a key is put on the stale list only when no call has stamped it in the ten minutes before the sweep began, nor since |
| RateStamps.ReturnedCallsStamped | backend/internal/server/ratelimit.go:74-101 | every call that has returned has stamped its key, except one that found on its second look that another had just made the bucket |
| RunCoordinator.StepKeepsInv | backend/internal/server/runs.go:115-171 | permits are the admitted, unreleased runs, within the cap; the wait group counts the unfinished goroutines; heartbeats live only while joined for |
| RunCoordinator.InvThroughout | backend/internal/server/runs.go:115-171 | the same in every interleaving |
| RunCoordinator.RejectionChangesNothing | backend/internal/server/runs.go:121-124 | a rejected spawn changes nothing else and happens only at capacity |
| RunCoordinator.DrainedIff | backend/internal/server/runs.go:125-165 | at wait-group zero no heartbeat is alive, and no permit is held if and only if no spawn is between the gate and wg.Add |
| RunCoordinator.PermitWithoutWaitGroup | backend/internal/server/runs.go:121-125 | two steps into a spawn a permit is held while the wait group is at zero |
| RunCoordinator.ReleasedOnce | backend/internal/server/runs.go:127-130 | every permit is taken once and released once, before wg.Done |
| RunCoordinator.NoStuckRun | backend/internal/server/runs.go:115-171 | a run that is neither turned away nor finished can always take its next step, without waiting for its deadline |
| Backoff.ExactIff | backend/internal/jobqueue/backoff.go:35-57 | the delay is min(Base·2^shift, Max) plus jitter, for every jitter, if and only if the 64-bit arithmetic fits |
| Backoff.SmallPoliciesFit | backend/internal/jobqueue/backoff.go:35-57 | a base below 2^33 ns with room for the jitter above Max always fits |
| Backoff.DefaultIsExact | backend/internal/jobqueue/backoff.go:29-32 | the default policy is exact at every attempt |
| Backoff.JitterOverflows | backend/internal/jobqueue/backoff.go:52-56 | a base whose doublings fit still overflows by its jitter under the largest Max, from attempt 31 |
| Backoff.JitterRange | backend/internal/jobqueue/backoff.go:63-73 | jitter lies between 0 and half the base |
| Backoff.JitterReaches | backend/internal/jobqueue/backoff.go:63-73 | every jitter in the range is drawn for some random number |
| Backoff.IdealDoubles | backend/internal/jobqueue/backoff.go:35-51 | the delay before jitter starts at Base, doubles with each attempt up to Max and stays from attempt 31 on, a second and five minutes standing in for what is not set |
| Retry.Do | backend/internal/retry/retry.go:61-107 | at most MaxAttempts calls, nil exactly when the last call returned nil, every other ending justified, and without a classifier every error retried |
| Retry.IdealIsPower | backend/internal/retry/retry.go:64-70 | the promised delay is min(Initial·2^(k−1), Max), half a second and ten seconds standing in for what is not set |
| Retry.DelaysExactIff | backend/internal/retry/retry.go:99-104 | the first n delays are the promised ones if and only if Initial is within Max and the doubling fits 64 bits |
| Retry.WaitInRangeIff | backend/internal/retry/retry.go:88-98 | one wait lies between the promised delay and one and a half times it, for every random source, if and only if the delay is exact and one and a half times it fits 64 bits |
| Retry.WaitsInRangeIff | backend/internal/retry/retry.go:88-104 | the first n waits do if and only if Initial is within Max, the doubling fits, and one and a half times the n-th promised delay fits |
| Retry.ModerateCeilings | backend/internal/retry/retry.go:88-104 | Initial ≤ Max ≤ 2^62 is enough |
| Retry.WaitOverflows | backend/internal/retry/retry.go:88-98 | with Initial and Max at 2^63 − 1 every delay is exact and every wait can overflow |
| Retry.DoublingOverflows | backend/internal/retry/retry.go:99-100 | just above 2^62 the second delay wraps to the least integer |
| Retry.LargeInitialIgnoresCeiling | backend/internal/retry/retry.go:99-104 | an Initial above Max is used unchanged: Max never applies |
| StateMachine.LoadedIff | backend/internal/runstate/fsm.go:137-139 | loading descriptors gives each consistently declared pair its destination |
| StateMachine.LoadIsTable | backend/internal/runstate/fsm.go:101-128 | descriptors that describe a table load back to exactly that table, in any order and grouping |
| StateMachine.Builder.Allow | backend/internal/runstate/fsm.go:84-91 | one undeclared pair is added |
| StateMachine.Builder.Groups | backend/internal/runstate/fsm.go:114-118 | the groups hold exactly the table's sources |
| StateMachine.Builder.Events | backend/internal/runstate/fsm.go:107-128 | the descriptors, in any map order, describe the table, one per event and destination |
| StateMachine.Builder.Build | backend/internal/runstate/fsm.go:97-99 | a machine at the initial state whose descriptors describe the table |
| StateMachine.MachineFollowsTable | backend/internal/runstate/fsm.go:137-161 | Can is the table; Apply agrees with Can if and only if the entry is no self-loop; the next state is the declared one |
| StateMachine.MachineAccepts | backend/internal/runstate/fsm.go:149-161 | a machine accepts exactly the event sequences its table accepts, with the same states |
| RunState.NewRunBuilder | backend/internal/runstate/run.go:40-45 | the run table |
| RunState.NewStageBuilder | backend/internal/runstate/stage.go:7-13 | the stage table |
| RunState.TransitFollowsTable | backend/internal/runstate/transition.go:19-47 | a status changes exactly along a declared edge, and CanTransitionRun foretells it |
| RunState.TerminalAbsorbs | backend/internal/runstate/run.go:53-62 | finished runs and stages stay as they are under every event sequence |
| RunState.RunsAreNeverSkipped | backend/internal/runstate/run.go:24-26 | no event sequence takes a run to skipped |
| RunState.RunTracesAreStageTraces | backend/internal/runstate/stage.go:3-13 | run traces are exactly the stage traces without a skip, with the same states |
| RunState.LifecyclesAreShort | backend/internal/runstate/stage.go:7-13 | from pending at most two events are accepted and the second ends the lifecycle |
| RunState.RunLifecycles | backend/internal/runstate/run.go:40-45 | the event sequences a run accepts, and where each ends: start, succeed leads to success, start, fail to failed, cancel to cancelled |
| RunState.StageLifecycles | backend/internal/runstate/stage.go:7-13 | the same for stages, with skip to skipped |

## Left out

- HTTP handlers, middleware, webhooks, CLI, configuration loading: plumbing with one-branch claims.
- The page itself: DOM, SVG path strings, label placement, zoom, focus, the add dialog, descriptions and phases of stages.
- Time zones with daylight saving or with offsets that are not whole minutes: what `time.Date` does in a gap is the library's choice.
- Go's range of representable instants and the length of 64-bit counters: instants, positions and attempts are unbounded integers, except where wrap-around is the subject (cron steps, delays).
- Which of its errors the field parser reports for a bad element, texts of error messages, logging, metrics, and the created and updated stamps of schedules.
- Schedule names, `MemoryStore.List`, `Get` and `Delete`, and the SQL of the schedule store: one-line table access.
- The advisory lock and leader election of `Runner.Run`: they depend on Postgres; a term of leadership is the loop of ticks.
- `newRunID` and `newID`: ids of runs and jobs are inputs, so their uniqueness is not claimed.
- Transaction isolation, `SKIP LOCKED`, `LISTEN`/`NOTIFY` and lost connections: each SQL statement is one atomic step on the jobs table, and key exclusion is claimed under that atomicity only.
- The number formats of the jobs table (32-bit attempts, microsecond timestamps, normalised JSON payloads) and the array literal built by `pgTextArray`.
- Crashed workers: a handler that never returns keeps its lease; no reclaim of abandoned jobs is part of the code modelled.
- Panicking runs in `SpawnWithDeadline`, the content of heartbeats, and the timeout of `Wait`.
- Token-bucket arithmetic: a bucket is its key; that two callers may briefly hold different limiters for one key is not modelled.
- Callbacks of the state machine library: it is a map from event and source to destination that refuses undeclared pairs and transitions to the current state.
- JobQueue.StepAgrees: leaves out the lock and start stamps, because the stores differ there: Reschedule to failed clears them only in Postgres, as JobPostgres.SameRowsIff says exactly.
- JobPostgres.Postgres.CheckOwnedRowAffected: the method runs on the table the update left; what other clients do in between is the subject of JobProtocol.LateCheckIff, for ids that are not enqueued anew meanwhile.
- JobMemory.Earliest: stands for `sort.Slice` followed by the first element; the order of the rest is not used.
- JobMemory.Memory.Dequeue: the copy handed to the caller is returned as a value, so later changes through it cannot be expressed.
- LogStore.Memory.Append: the list node of a stream is found by searching the list, not through a stored reference.
- DagEditor.Editor.Rename: drafts are values, so renaming replaces the stage in the list instead of changing a shared object; `clone` has nothing to do.
- The curves of edges between neighbouring columns: only the routes of skipping edges, which are straight legs, are compared with the boxes.
- DagGeometry.Connections: `sort` and `indexOf` are modelled by counting the edges the comparator puts first; port coordinates are exact fractions instead of floating-point numbers.
- Retry.Do: the loop is modelled with timers that wait exactly as long as asked; a cancelled context is one error value.
- RateLimiter.SweepLeavesNoneBehind: says nothing about a sweep that found nothing to delete, which never takes the write lock.
