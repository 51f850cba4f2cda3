# Verified models of the ns-3 tooling and example algorithms

This project models, in Dafny, the self-contained algorithms and protocols of the repository's test runner,
introspection tool, style checker, Python bindings, scheduler benchmark, trace viewer and examples, and
proves what they promise. `dafny verify dfyconfig.toml` checks everything.

| file | what it models |
|---|---|
| `WorkerPool.dfy`, `WorkerThread.dfy`, `WorkerResults.dfy` | the worker threads of `test.py`: two FIFO queues, stop jobs, the interrupt flag, every interleaving; what they hand back |
| `TestSummary.dfy` | the collection loop of `test.py`: counters, list of failed jobs, exit code |
| `ConfigPaths.dfy`, `ConfigPathsUnique.dfy`, `ConfigPathsRegistry.dfy` | the depth-first search for configuration paths, and when the output of all roots repeats itself: for a type graph, and for a registry of types |
| `PyText.dfy`, `StyleFile.dfy`, `StyleChecks.dfy`, `StyleRun.dfy` | Python string and line operations, the guarded file walk, the whitespace, tabs and licence checks, and a run of them |
| `LoadOrder.dfy` | the layered load order of the Python bindings |
| `BenchScheduler.dfy` | the benchmark's event population and Welford's online moments |
| `GridTimeline.dfy`, `GridReader.dfy`, `GridLegend.dfy` | searches and window queries, grouping of input lines, legend layout |
| `Fairness.dfy` | Jain's index in 64-bit arithmetic |
| `BytePump.dfy`, `WifiSender.dfy` | the partial-write sender and the self-rescheduling sender |
| `TcpTraces.dfy`, `Numerals.dfy` | the cross-updating trace streams and the node number in a trace context |
| `AdjacencyMatrix.dfy` | the matrix printer and its reader |
| `Sums.dfy`, `Sequences.dfy` | sums over sequences, used for counting, and other facts about sequences |

How to read the main results:

- **Worker pool.** `Inv` is kept by every step of every thread (`InvStep`, `InvRun`). From it follow deadlock
  freedom, a bound on the length of all runs, and that a run which no thread can extend has collected every
  test exactly once with all workers gone. Each collected test carries the result of its own one execution
  (`CollectedAsExecuted`), so the summary of a run does not depend on the schedule.
- **Configuration paths.** `DoGather` appends the entries of `Walks`, in order; `WalksExact` and
  `WalksDistinct` say that `Walks` lists exactly the simple walks, each once.
- **Style checks.** One fixing run with any selection of the three checks leaves a file on which all of them
  succeed, so a second run changes nothing. The proof rests on a line being enabled in the second run only if
  it was in the first, although expanding a tab can create a guard (`NewGuardExample`).
- **Load order.** Each round is exactly a layer of the dependency graph; the recursion ends if and only if
  all dependencies are keys and there is no cycle.

Where code and documentation or expectation differ, the model follows the code:

- `Uniquefy` is documented to modify its container in place but takes it by value
  (`utils/print-introspected-doxygen.cc:400-418`), so the gathered output keeps its duplicates.
  `DuplicatesIff` gives the exact condition for the output of any list of roots in a well-named type graph, and
  `RegistryDuplicatesIff` in terms of a registry whose type names are distinct, whose attribute names are distinct
  in each type, and none of whose names can be taken for another: a root comes twice, walks from two roots meet, or
  a walk comes to a type that is linked twice to a type not yet visited. The program lists one aggregation twice
  (lines 555 and 557); `GetTypicalAggregations` says that this leaves duplicates whenever a simple walk leads from a
  root to the first of the two types without the second, and `DuplicatesExample` is such a registry.
- `get_ranges` returns nothing when neither end of the window is covered, even if ranges lie inside it, and
  too much when only one end is covered; `GetRangesExactIff` says exactly when its answer is right, and
  `MissingExample`, `TooManyLeftExample` and `TooManyRightExample` are inputs for which it is not.
- `get_events` can lose events whose time is an end of the window and occurs more than once (`EqualTimesExample`);
  `NothingLostIff` says exactly when it does not, and `GetEvents` is exact if these times occur once at most.
- Jain's index can leave its range when its sums wrap in 64 bits. `IndexRange` gives the range for all counters, not
  all zero, for which they do not. For equal counters `EqualCounters` gives the exact condition: the index is 1 also
  if the sums wrap, unless n times the counter is a multiple of 2^32.
- A failing suite can be in `failed_jobs` twice; `FailedListExact` gives the multiplicity.
- A negative process limit leaves no worker thread, and then the main thread waits for its first result for ever
  (`test.py:1605-1618`); `CompletesIff` says that this is the only case in which the pool cannot complete.
- `dependency_order` does not end for cyclic or open tables (`TerminatesIff`).

Inputs that come from outside the modelled code are parameters or arbitrary values: return codes and result
files of executed tests, the moment of the interrupt, the type registry with its child relation, text extents,
random delays, and what a socket answers.

## Model

| member | source | states |
|---|---|---|
| `WorkerPool.InvInit` | `test.py:1577-1581` | with empty queues and unstarted workers the pool satisfies the invariant |
| `WorkerPool.InvStep` | `test.py:1079-1163` | every step of main, a worker or the signal handler keeps the invariant: queue contents in FIFO order, each job in one place, stop jobs accounted for and taken last, jobs only rewritten as the worker code does |
| `WorkerPool.PlacesStep` | `test.py:1081-1106` | no step duplicates or loses a job, also when the flag rewrites `is_break` on it in flight |
| `WorkerPool.InvRun` | `test.py:1613-1956` | the invariant holds in every state of every run |
| `WorkerPool.WorkersAreFree` | `test.py:1080-1163` | only an empty input queue holds a worker up, a command may end with any outcome, and the interrupt can come at any time |
| `WorkerPool.NoDeadlock` | `test.py:1952-1955` | with at least one worker or nothing to do, whenever main is not done some thread can step |
| `WorkerPool.MeasureStep` | `test.py:1079-1163` | every thread step lowers a measure, an interrupt leaves it |
| `WorkerPool.RunsAreBounded` | `test.py:1929-1955` | in every schedule the threads take at most 6 steps per test and 5 per worker |
| `WorkerPool.DoneIsCompleted` | `test.py:2107-2112` | after the joins both queues are empty, every worker left on a stop job and every test was collected exactly once |
| `WorkerPool.MaximalRunCompletes` | `test.py:1613-2112` | with at least one worker or nothing to do, a run that no thread can extend has completed, whenever and however often it is interrupted |
| `WorkerPool.CanComplete` | `test.py:1952-2112` | with at least one worker or nothing to do, from every reachable state the threads can finish |
| `WorkerPool.CompletesIff` | `test.py:1605-1618` | the pool can complete exactly if there is a worker or nothing to do |
| `WorkerPool.NoSharedJob` | `test.py:1081-1106` | no two workers, and no worker and queue, ever hold the same job |
| `WorkerPool.LeavesLast` | `test.py:1082-1087` | a worker leaves only when nothing but stop jobs is left in the input queue |
| `WorkerPool.UninterruptedRunRunsAll` | `test.py:1099-1163` | without an interrupt every collected test was executed exactly once, or not at all if it is to be skipped |
| `WorkerPool.FlagIffInterrupted` | `test.py:630-637` | the flag is set by an interrupt, by nothing else, and for good |
| `WorkerPool.InterruptStopsExecution` | `test.py:1088-1096` | after the interrupt only commands already running finish, at most one per worker |
| `WorkerPool.OneWorkerKeepsOrder` | `test.py:1080-1106` | with one worker, results are collected in the order of dispatch |
| `WorkerResults.CollectedAsExecuted` | `test.py:1118-1163` | a collected test was executed once or never, and carries the return code and result file of its own execution |
| `WorkerResults.InterruptDivides` | `test.py:1088-1106` | tests decided upon when the first interrupt comes are handed back as if there had been none; all others come back marked and are not executed |
| `WorkerResults.CanFollow` | `test.py:1079-1163` | whatever the commands are to return, from every reachable state the pool can finish with these outcomes |
| `WorkerThread.Serve` | `test.py:1086-1163` | the loop body on a job object updated in place is what the worker's own steps do in any pool |
| `TestSummary.Summarize` | `test.py:1944-1988` | the counters are the numbers of executed tests with return code 0, 1, 2 and any other, and of skipped tests; the list of failed jobs; exit code 0 exactly if every job was skipped or returned 0, and none was interrupted |
| `TestSummary.NoteFailure` | `test.py:1968-1973` | the two append/pop sites together add the stated copies of the job |
| `TestSummary.EveryJobCounted` | `test.py:1952-1988` | the five counters and the interrupted jobs add up to the number of jobs |
| `TestSummary.FailedListExact` | `test.py:2079-2098` | a job is in the list exactly if it ran and exited non-zero or was a suite whose file says neither PASS nor SKIP; once for each of the two sites that keeps it |
| `TestSummary.FailedInOrder` | `test.py:1952-2098` | the list follows the order of the results |
| `TestSummary.ScheduleIndependent` | `test.py:1952-1988` | in every complete run each counter is the number of tests whose command returns the code in question, or that are to be skipped, whatever the schedule and number of workers |
| `TestSummary.ExitCodeByOutcome` | `test.py:2221-2224` | the condition of exit code 0 holds exactly if every test not to be skipped returns 0 |
| `TestSummary.UninterruptedIsComplete` | `test.py:1094-1097` | without an interrupt no test is given up, so the two statements above hold of every uninterrupted run |
| `ConfigPaths.StaticInformation.DoGather` | `utils/print-introspected-doxygen.cc:437-521` | terminates on any finite, possibly cyclic graph, restores both stacks, and appends the entries of the recorded walks in order |
| `ConfigPaths.StaticInformation.Follow` | `utils/print-introspected-doxygen.cc:465-470` | the push, recurse, pop statements contribute exactly the walks through that edge |
| `ConfigPaths.StaticInformation.FollowAttributes` | `utils/print-introspected-doxygen.cc:445-484` | the attribute loop follows pointer attributes except to plain objects, and object vectors with the index marker |
| `ConfigPaths.StaticInformation.FollowChildren` | `utils/print-introspected-doxygen.cc:485-497` | the second loop follows every registered child type |
| `ConfigPaths.StaticInformation.FollowAggregates` | `utils/print-introspected-doxygen.cc:498-520` | the third loop follows every aggregation that involves the type, on either side |
| `ConfigPaths.WalksExact` | `utils/print-introspected-doxygen.cc:437-521` | the search records a walk exactly if it is simple and avoids the types on the stack |
| `ConfigPaths.WalksDistinct` | `utils/print-introspected-doxygen.cc:437-521` | no walk is recorded twice |
| `ConfigPaths.WalksAscending` | `utils/print-introspected-doxygen.cc:437-521` | a walk is recorded before its extensions, and those by an earlier edge before those by a later one |
| `ConfigPaths.EdgesExact` | `utils/print-introspected-doxygen.cc:445-520` | the edges of a type lead along pointer attributes except to plain objects, along object vectors, to its children, and to the other side of its aggregations |
| `ConfigPathsRegistry.EdgesInOrder` | `utils/print-introspected-doxygen.cc:445-520` | attributes are followed in their order, then children, then aggregations |
| `ConfigPaths.StaticInformation.GetCurrentPath` | `utils/print-introspected-doxygen.cc:350-360` | the path is the slash-joined stack |
| `ConfigPaths.StaticInformation.HasAlreadyBeenProcessed` | `utils/print-introspected-doxygen.cc:369-381` | true exactly for the types on the stack |
| `ConfigPaths.StaticInformation.RecordOutput` | `utils/print-introspected-doxygen.cc:362-367` | appends the type with the current path |
| `ConfigPaths.StaticInformation.RecordAggregationInfo` | `utils/print-introspected-doxygen.cc:318-338` | unknown names go to the list of names without type, the first only; otherwise the pair is recorded |
| `ConfigPaths.StaticInformation.Gather` | `utils/print-introspected-doxygen.cc:429-435` | one root; sorting and thinning out happen on a copy, so the output keeps order and duplicates |
| `ConfigPaths.StaticInformation.GatherAll` | `utils/print-introspected-doxygen.cc:576-580` | the entries of all roots follow one another in the one output |
| `ConfigPaths.StaticInformation.RecordAll` | `utils/print-introspected-doxygen.cc:549-569` | of the listed aggregations those with two registered names are recorded, in order |
| `ConfigPaths.StaticInformation.Get` | `utils/print-introspected-doxygen.cc:383-396` | the paths recorded for a type, in order |
| `ConfigPaths.PathsForExact` | `utils/print-introspected-doxygen.cc:383-396` | after gathering any list of roots, a path is offered for a type exactly if a simple walk from a root with those segments ends there |
| `ConfigPaths.PathsForInOrder` | `utils/print-introspected-doxygen.cc:383-396` | the paths come in the order in which they were recorded, each as often as it was recorded |
| `ConfigPathsUnique.PathInjective` | `utils/print-introspected-doxygen.cc:350-360` | well-formed segments can be read back from a path |
| `ConfigPathsUnique.DuplicatesIffFork` | `utils/print-introspected-doxygen.cc:413-435` | for well-named types the entries of one root repeat themselves exactly if a simple walk meets two edges of the same segment to an unvisited type |
| `ConfigPathsUnique.DuplicatesIff` | `utils/print-introspected-doxygen.cc:429-580` | for well-named types the output of all roots repeats itself exactly if a root forks, a root comes twice, or walks from two different roots meet under the same segments |
| `ConfigPathsUnique.CommonIffMeet` | `utils/print-introspected-doxygen.cc:576-580` | two different roots share an entry exactly if walks from them meet under the same segments |
| `ConfigPathsRegistry.RepeatedAggregationDuplicates` | `utils/print-introspected-doxygen.cc:498-520` | an aggregation recorded twice makes the output repeat itself if a simple walk from a root ends at one of its types and avoids the other |
| `ConfigPathsRegistry.GraphWellNamed` | `utils/print-introspected-doxygen.cc:445-520` | a registry with distinct names that cannot be taken for one another has a well-named graph |
| `ConfigPathsRegistry.ForksIffLinkedTwice` | `utils/print-introspected-doxygen.cc:485-520` | the search forks exactly at types that are aggregated twice with an unvisited type, or have it as a child and are aggregated with it as well |
| `ConfigPathsRegistry.RegistryDuplicatesIff` | `utils/print-introspected-doxygen.cc:429-580` | the output repeats itself exactly if a walk from a root comes to a type that is linked twice to an unvisited type, a root comes twice, or walks from two different roots meet |
| `ConfigPathsRegistry.DuplicatesExample` | `utils/print-introspected-doxygen.cc:549-580` | a registry of four types for which a repeated aggregation leaves duplicates |
| `ConfigPathsRegistry.GetTypicalAggregations` | `utils/print-introspected-doxygen.cc:528-584` | from the registrations to the last root; a pair listed twice leaves duplicates if a root exposes it |
| `LoadOrder.ModulesThatCanBeLoaded` | `bindings/python/ns__init__.py:432-443` | the nested loops select, in order, the pending libraries whose dependencies are all loaded |
| `LoadOrder.RemovingReady` | `bindings/python/ns__init__.py:456` | removing the selected libraries one by one leaves the others in order |
| `LoadOrder.Loader.Round` | `bindings/python/ns__init__.py:450-457` | one round moves exactly the loadable libraries from pending to loaded and records them as a step |
| `LoadOrder.RoundKeeps` | `bindings/python/ns__init__.py:445-460` | a round keeps: nothing lost, dependencies first, step k holds libraries of depth k, pending ones are deeper |
| `LoadOrder.Loader.DependencyOrder` | `bindings/python/ns__init__.py:445-460` | for closed acyclic tables the recursion ends with nothing pending, in at most as many rounds as libraries |
| `LoadOrder.EmptyRoundMeansCycle` | `bindings/python/ns__init__.py:432-460` | a round that loads nothing while libraries are pending exhibits a dependency cycle among them |
| `LoadOrder.SortToDependencies` | `bindings/python/ns__init__.py:462-467` | the result is a permutation of the libraries with dependencies first; step k holds exactly those whose longest chain has length k, in the order of the table's keys |
| `LoadOrder.HasChainIsPath` | `bindings/python/ns__init__.py:436-439` | chains of length k are paths along dependencies with k edges |
| `LoadOrder.TerminatesIff` | `bindings/python/ns__init__.py:445-460` | the recursion ends exactly for closed acyclic tables |
| `PyText.TrimParts` | `utils/check-style-clang-format.py:540-543` | what `strip` removes, and that nothing more can be removed |
| `PyText.ExpandLastTab` | `utils/check-style-clang-format.py:686` | a tab becomes one to four spaces that end at the next multiple of four columns, and the text after it stays |
| `PyText.UniversalLine` | `utils/check-style-clang-format.py:536-537` | lines are read up to their end and with a plain line break, whichever way they end |
| `PyText.SplitJoin` | `utils/check-style-clang-format.py:536-537` | splitting into lines undoes joining |
| `StyleFile.VisitLine` | `utils/check-style-clang-format.py:539-557` | one turn of the loop: guard flag, skipping, check |
| `StyleFile.VisitLines` | `utils/check-style-clang-format.py:539-566` | the loop yields the verdict before the fix and, unless it stops at the first offence, the fixed lines |
| `StyleFile.CheckManuallyFile` | `utils/check-style-clang-format.py:512-573` | the verdict is the one before the fix; the file changes only in fix mode and only if it does not comply |
| `StyleFile.PassAt` | `utils/check-style-clang-format.py:539-557` | a pass and its verdict line by line, in terms of the guard flag before each line |
| `StyleFile.GuardsProtect` | `utils/check-style-clang-format.py:539-557` | a check that respects guards leaves the lines between an off guard and the next guard alone and fixes all others, guards included; only the lines it fixes matter for the verdict |
| `StyleFile.FixFileExact` | `utils/check-style-clang-format.py:512-573` | the file is rewritten line by line, and only if a line that is not protected does not comply |
| `StyleChecks.WhitespaceFix` | `utils/check-style-clang-format.py:627-657` | the fixed line is a full line without trailing whitespace |
| `StyleChecks.WhitespaceKeepsText` | `utils/check-style-clang-format.py:644` | the line keeps its text up to the last character that is no whitespace and ends with a line break |
| `StyleChecks.TrailingBlanksGo` | `utils/check-style-clang-format.py:644` | blanks and tabs after the last visible character go |
| `StyleChecks.TabsFixLine` | `utils/check-style-clang-format.py:660-692` | the fixed line has no tab and keeps its line break |
| `StyleChecks.TabsFixNeat` | `utils/check-style-clang-format.py:660-692` | expanding tabs does not create trailing whitespace |
| `StyleChecks.TabsFixGuard` | `utils/check-style-clang-format.py:47-57` | expanding tabs keeps every guard |
| `StyleChecks.LicenceFixed` | `utils/check-style-clang-format.py:731-746` | a licence line is its text between padding; the first line of the text is replaced by the SPDX identifier, any other is deleted |
| `StyleChecks.LicenceLineInComment` | `utils/check-style-clang-format.py:731-746` | so it is for every licence line in a comment, however it is indented |
| `StyleChecks.LicenceLineInUse` | `utils/check-style-clang-format.py:731-746` | in the comment styles of C++, Python and C |
| `StyleChecks.OnlyLicenceLines` | `utils/check-style-clang-format.py:734-736` | only such lines are touched |
| `StyleChecks.GuardsExactly` | `utils/check-style-clang-format.py:47-57` | a guard line is one of the guards with nothing but whitespace around it |
| `StyleChecks.LicenceFixSettled` | `utils/check-style-clang-format.py:736-746` | the SPDX line is no licence text |
| `StyleChecks.LicenceFixGuard` | `utils/check-style-clang-format.py:736-746` | the licence check neither changes nor creates guards |
| `StyleRun.RunChecks` | `utils/check-style-clang-format.py:358-383` | a run applies the selected checks in order and is successful exactly in fix mode or on a clean file |
| `StyleRun.WhatGuardsProtect` | `utils/check-style-clang-format.py:323-351` | trailing whitespace is removed everywhere, tabs and licence text only in lines that are not protected |
| `StyleRun.Settles` | `utils/check-style-clang-format.py:539-553` | after a guarded pass a later guarded check finds nothing, although guards may have appeared: enabled later implies enabled before |
| `StyleRun.FixRunIsClean` | `utils/check-style-clang-format.py:77-83` | after a fixing run with any selection of checks all of them succeed |
| `StyleRun.FixRunFixpoint` | `utils/check-style-clang-format.py:512-573` | a fixing run changes a file exactly if it is not clean, and a second run changes nothing |
| `StyleRun.FixThenCheck` | `utils/check-style-clang-format.py:358-383` | a check after a fix is successful |
| `StyleRun.NewGuardExample` | `utils/check-style-clang-format.py:686-690` | expanding a tab can turn a line into an off guard |
| `BenchScheduler.Bench.Cb` | `utils/bench-scheduler.cc:152-165` | an event replaces itself and is counted until the total is reached; then it stops the simulation |
| `BenchScheduler.Bench.Run` | `utils/bench-scheduler.cc:122-150` | the population is pending before every callback, one more callback runs than events are counted, and the total is reported |
| `BenchScheduler.WelfordDeviations` | `utils/bench-scheduler.cc:347-351` | the online step adds exactly what the sum of squared deviations grows by |
| `BenchScheduler.Summarize` | `utils/bench-scheduler.cc:335-360` | for at least two results the loop ends with the mean and the sum of squared deviations of each of the six fields |
| `GridTimeline.TimelineDataRange.Search` | `utils/grid.py:113-130` | the index found covers the key; for sorted ranges, which may touch, -1 means that none does |
| `GridTimeline.FoundIsCovering` | `utils/grid.py:113-130` | for sorted disjoint ranges the binary search finds what a search from the front finds |
| `GridTimeline.TimelineDataRange.GetRanges` | `utils/grid.py:147-163` | for any list the ranges from the one found for the start to the one found for the end; one missing end is replaced by the end of the list, two give nothing; for sorted disjoint ranges, when these are the overlapping ones |
| `GridTimeline.TimelineDataRange.GetRangesBounds` | `utils/grid.py:165-181` | for any list the bounds denote that same slice |
| `GridTimeline.GetRangesExactIff` | `utils/grid.py:147-163` | a condition on the window's ends for the query to return exactly the overlapping ranges, in both directions |
| `GridTimeline.GetRangesComplete` | `utils/grid.py:147-163` | unless neither end is covered no overlapping range is missing |
| `GridTimeline.GetRangesTouching` | `utils/grid.py:147-163` | for ranges that may touch, what reaches into the window is returned unless neither end is covered, and what is returned for two covered ends touches it |
| `GridTimeline.MissingExample` | `utils/grid.py:156-157` | neither end covered: a range inside the window is missing |
| `GridTimeline.TooManyLeftExample` | `utils/grid.py:158-159` | only the right end covered: a range before the window is returned |
| `GridTimeline.TooManyRightExample` | `utils/grid.py:160-161` | only the left end covered: a range after the window is returned |
| `GridTimeline.TimelineEvent.Search` | `utils/grid.py:217-234` | for events in order, which may have equal times, the place splits earlier from later events, and an event of the sought time is there if any exists |
| `GridTimeline.TimelineEvent.GetEvents` | `utils/grid.py:244-253` | the slice between the two places; for events in order with at most one at each end of the window, exactly the events in the window, and the next one unless an event falls on the window's end |
| `GridTimeline.GetEventsInOrder` | `utils/grid.py:244-253` | for events in order: every event inside the window, none before it, and at most one after it |
| `GridTimeline.NothingLostIff` | `utils/grid.py:244-253` | for events in order: nothing in the window is lost exactly if no event beside the slice has the time of that end |
| `GridTimeline.EqualTimesExample` | `utils/grid.py:226-227` | of three events at one time only the middle one is returned |
| `GridReader.Timeline.GetSeries` | `utils/grid.py:306-343` | the series of that name, made if there is none; nothing else changes |
| `GridReader.Timelines.Get` | `utils/grid.py:416-427` | the timeline of that name, made if there is none; names stay unique |
| `GridReader.Timelines.Add` | `utils/grid.py:1751-1780` | a data line is appended to the series of its names and to no other |
| `GridReader.EverySeriesFound` | `utils/grid.py:306-343` | series names are unique in each list of a timeline: every series is the one found under its names |
| `GridReader.SelectedInOrder` | `utils/grid.py:1751-1780` | the items of a series stand in the order of their lines, each once |
| `GridReader.ReadData` | `utils/grid.py:1739-1790` | before sorting, every series in every list is the input filtered to its names, in order; names are unique, and a series exists exactly if a line names it |
| `GridLegend.TopLegendRenderer.Layout` | `utils/grid.py:582-607` | the height is that of the line structure |
| `GridLegend.TopLegendRenderer.Draw` | `utils/grid.py:616-647` | each item is drawn next to the one before it if it fits and opens a new row otherwise; every item lies within the height, items do not overlap, and rows fit the width unless they hold a single over-wide item |
| `GridLegend.TopLegendRenderer.LayoutAndDraw` | `utils/grid.py:582-647` | what is drawn lies within the height that the layout has stored |
| `GridLegend.PlaceNext` | `utils/grid.py:626-637` | placing one more item keeps boxes apart and rows within the width |
| `Fairness.GroupFairness` | `examples/tcp/dctcp-example.cc:176-185` | the loop computes both sums modulo 2^64 and divides their products |
| `Fairness.Lagrange` | `examples/tcp/dctcp-example.cc:173-185` | n times the sum of squares exceeds the square of the sum by the squared differences of all pairs |
| `Fairness.NoOverflow` | `examples/tcp/dctcp-example.cc:178-185` | if n times the largest counter is below 2^32 neither product wraps |
| `Fairness.IndexRange` | `examples/tcp/dctcp-example.cc:173-217` | for counters not all zero, if n times the sum of squares is below 2^64, the index lies in [1/n, 1] and is 1 exactly for equal counters |
| `Fairness.IndexRangeByLargest` | `examples/tcp/dctcp-example.cc:173-217` | so it does if n times the largest counter is below 2^32 |
| `Fairness.EqualCounters` | `examples/tcp/dctcp-example.cc:178-185` | for equal counters, wrapped or not, the index is 1 unless n times the counter is a multiple of 2^32, and then it is no number |
| `Fairness.WrappedExample` | `examples/tcp/dctcp-example.cc:178-185` | for ten equal counters of 2^32 everything wraps to zero and there is no number |
| `Fairness.AllZero` | `examples/tcp/dctcp-example.cc:185` | counters that are all zero give no number |
| `BytePump.Sender.constructor` | `examples/tcp/tcp-large-transfer.cc:94-99` | the buffer holds the repeating alphabet |
| `BytePump.Sender.WriteOnce` | `examples/tcp/tcp-large-transfer.cc:214-226` | one turn of the loop offers the least of what is left, what the buffer holds and the available space, and is safe for every answer of the socket, also if it accepts nothing |
| `BytePump.Sender.WriteUntilBufferFull` | `examples/tcp/tcp-large-transfer.cc:210-232` | byte k accepted is always 'a' + k % 26, reads stay inside the buffer, the total is never exceeded, and the socket is closed exactly if all was accepted; the callback ends only for that, a full buffer or a refused send |
| `BytePump.Sender.Drive` | `examples/tcp/tcp-large-transfer.cc:198-232` | this holds for every sequence of callbacks and buffer spaces |
| `TcpTraces.NodeIdRoundTrip` | `examples/tcp/tcp-variants-comparison.cc:69-74` | the node number read from a context is the one it was printed from, for every node |
| `TcpTraces.Tracers.CwndTracer` | `examples/tcp/tcp-variants-comparison.cc:83-102` | the effect on the node's streams and values; other nodes are untouched |
| `TcpTraces.Tracers.SsThreshTracer` | `examples/tcp/tcp-variants-comparison.cc:110-129` | the effect on the node's streams and values; other nodes are untouched |
| `TcpTraces.Tracers.Replay` | `examples/tcp/tcp-variants-comparison.cc:83-129` | for any interleaving, a node's streams depend on its own changes only |
| `TcpTraces.FoldOk` | `examples/tcp/tcp-variants-comparison.cc:88-93` | a started stream begins at time 0.0 and ends with the stored value |
| `TcpTraces.NotStartedYet` | `examples/tcp/tcp-variants-comparison.cc:88-91` | a stream is empty until the first change of its kind |
| `TcpTraces.StreamExact` | `examples/tcp/tcp-variants-comparison.cc:83-129` | from then on it holds the value before that change, at time 0.0, and one entry for this and every later change of either kind |
| `TcpTraces.StreamsAreAligned` | `examples/tcp/tcp-variants-comparison.cc:97-101` | once both streams have started, both are samplings of their values at every change of either |
| `TcpTraces.SampledTimes` | `examples/tcp/tcp-variants-comparison.cc:97-101` | one entry per change, at the time of the change |
| `WifiSender.Sender.StartApplication` | `examples/stats/wifi-example-apps.cc:92-109` | restarting leaves exactly one pending send event |
| `WifiSender.Sender.StopApplication` | `examples/stats/wifi-example-apps.cc:111-116` | nothing is pending after a stop |
| `WifiSender.Sender.SendPacket` | `examples/stats/wifi-example-apps.cc:118-142` | one packet, and a next event exactly if the configured number is not reached |
| `WifiSender.NothingAfterStop` | `examples/stats/wifi-example-apps.cc:111-116` | no packet is sent between a stop and the next start |
| `WifiSender.SentBound` | `examples/stats/wifi-example-apps.cc:118-142` | since the last start no more packets are sent than configured, for every event sequence, and a send is pending only below that number |
| `WifiSender.RunsToTarget` | `examples/stats/wifi-example-apps.cc:92-142` | a started sender that is not stopped sends exactly the configured number of packets, then nothing more |
| `AdjacencyMatrix.PrintMatrix` | `examples/matrix-topology/matrix-topology.cc:403-416` | the nested loops write the rows |
| `AdjacencyMatrix.PrintedChars` | `examples/matrix-topology/matrix-topology.cc:408-414` | each element is printed as a digit and a blank, each row ends with a line break |
| `AdjacencyMatrix.ReadNxNMatrix` | `examples/matrix-topology/matrix-topology.cc:287-350` | accepts exactly the inputs whose rows up to the first empty line all have as many elements as there are rows, and returns them |
| `AdjacencyMatrix.RowsOfLines` | `examples/matrix-topology/matrix-topology.cc:300-308` | the file is read line by line, up to its end or the first empty line |
| `AdjacencyMatrix.ExtractNumber` | `examples/matrix-topology/matrix-topology.cc:315-319` | an element is a number with an optional sign that must be 0 or 1, and a minus sign only before 0 |
| `AdjacencyMatrix.AnySeparators` | `examples/matrix-topology/matrix-topology.cc:315-319` | a row is read however its elements are separated by blanks, tabs or returns |
| `AdjacencyMatrix.RowsRoundTrip` | `examples/matrix-topology/matrix-topology.cc:309-319` | the rows of printed text are the printed rows |
| `AdjacencyMatrix.PrintThenRead` | `examples/matrix-topology/matrix-topology.cc:287-416` | an n x n matrix is read back as printed |

## Left out

- The pool is a state machine over values: a job object shared between threads is represented by its identity, which the invariant keeps in one place; `WorkerThread.Serve` models the in-place update of one job.
- `test.py`: building, discovering and launching tests, XML and HTML output; a missing result file of a suite that returned 0, 1 or 2, which raises an exception.
- TestSummary.Summarize: names of tests per status and timing are not kept; the queue is the sequence of jobs taken from it.
- ConfigPaths.StaticInformation.Gather: the copy that is sorted and thinned out has no effect and is not computed; likewise the list of names without type.
- `utils/check-style-clang-format.py`: the formatting check (an external tool), the include-prefix check (depends on the disk), choice of files, parallel execution and verbose text.
- LoadOrder.SortToDependencies: the table of linked libraries is given; the table of rounds, a dictionary with keys 0, 1, 2, ... filled in that order, is a sequence, and that its default value would be shared by a second call is not modelled.
- BenchScheduler.Summarize: exact reals instead of floating point, and no square root.
- BenchScheduler.Bench.Run: wall-clock times and delays; the simulator takes pending events in any order.
- GridReader.ReadData: the regular expressions (lines arrive split into fields), the colour table and the final sort.
- GridTimeline.TimelineDataRange.Search: sortedness and disjointness are hypotheses; the comparator call of `sort` is not modelled.
- `utils/grid.py`: drawing, zooming and mouse handling.
- Fairness.IndexRange: for unequal counters whose sums wrap no condition simpler than the wrapped products themselves is given.
- Fairness.GroupFairness: throughput averages and output text; the quotient is a real number.
- BytePump.Sender.WriteUntilBufferFull: a socket is taken not to accept 0 bytes for ever, without which the loop need not end; `BytePump.Sender.WriteOnce` does without.
- TcpTraces.NodeIdRoundTrip: signs and leading blanks, which `stoul` also accepts, and the truncation to 32 bits of larger numbers.
- AdjacencyMatrix.ReadNxNMatrix: opening the file; numbers too large for a machine word.
- The other samplers of `dctcp-example.cc` and `tcp-variants-comparison.cc`, coordinates files, and all scenario set-up: they would only add easy members or are calls into libraries that are not part of this model.
