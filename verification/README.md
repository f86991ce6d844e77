# Verified models of OpenViking's harnesses, config writer, client singleton and native binding

The project models the parts of OpenViking whose correctness depends on state, interleaving or
arithmetic that is easy to get wrong, and proves what they are for:

- **Streaming JSON arrays** (`JsonScanner`, `JsonLocality`, `JsonGrammar`, `JsonArrayReader`,
  `JsonArrayTheorems`, `JsonPrinter`). A concrete, self-delimiting scanner of JSON values in the dialect of
  Python's decoder, proved to read exactly the texts of a grammar that is stated apart from it, and a locality
  law: a value that was found does not depend on the text behind it. From it follows that the reader with its
  refillable buffer, for every positive chunk size, gives the records and the outcome of a reading of the whole
  text. The texts it accepts are exactly the laid-out arrays, every error says what stands where it stopped,
  and printing is undone by reading.
- **Load runner** (`TaskLifecycle`, `TaskTrace`, `TaskDrain`). The main coroutine, its workers, the server and
  the clock as an interleaving of steps; what its lists hold, told from the answers and replies in a run alone;
  and those lists as a class whose drain method is proved to be a legal run of the steps.
- **Config writer** (`BackupNames`, `ConfigWriter`). A directory in which every operation may fail or
  crash, half-written files included, and histories of any number of writes.
- **Bounded concurrency** (`BoundedMap`, `RequestGate`). Semaphore protocols over any number of tasks and
  any schedule, with progress and termination.
- **Paths** (`PyText`, `Paths`, `ScopeMatching`, `PathSpellings`, `PathScopes`, `ResourceUris`, `Selectivity`,
  `Arithmetic`). Python's string operations, the path algebra as string code and as an order on lists of
  segments, derived scopes, URIs, mixed-radix synthetic paths and what a scope selects.
- **Native binding** (`RefOwnership`, `PackedBitmap`). Reference ownership and Python's error indicator over
  every pattern of failing API calls, and the little-endian bitmap.
- **Client singleton** (`Singleton`, `SingletonClients`). Double-checked locking with any number of threads,
  `close` and `reset`.
- **Benchmark arithmetic** (`Samples`, `Percentiles`, `RunSummary`, `FilterWindows`, `Buckets`). Percentiles,
  median and deviation over exact reals, the grouping of result files, filter windows and buckets.

Code that changes state in place is a class or a method with a loop, proved against a function of its input
or old state; the laws are lemmas about that function. Interleavings are state machines whose theorems hold
of every legal sequence of steps.

Where the code does not do what one would expect, one lemma or method shows an input and another gives
the exact condition:

- `normalize_path` is not idempotent on every text: `Paths.BareSlashesUnstable`, and exactly when it is:
  `Paths.NormalizeTwice`.
- A path need not be matched by the scope derived from it: `PathScopes.SemicolonBreaksScope`,
  `PathScopes.DoubledSlashBreaksScope`, `PathScopes.SpaceBreaksScope`. `ScopeMatching.OwnScopeMatches` says for
  every text exactly when it is, `PathScopes.DerivedScopeMatchesExactly` does so for the scope derived from
  several paths, and `PathScopes.CaseKeepsExactly` for the ids a directory case keeps.
- `_write_config` can return False although the new version is in place: `ConfigWriter.RefusedButWritten`, and
  exactly when: `ConfigWriter.WriteOnce`.
- `__new__` can return None: `Singleton.ResetCanYieldNone`, and exactly when: `Singleton.NoneExactlyAfterReset`.
- Several clients can be built for one instance: `Singleton.TwoClientsForOneInstance`. In runs of constructor
  calls alone at most one is as long as no two threads are past the guard at once
  (`SingletonClients.OneAtATimeBuildsOne`), and wherever two are, two can be built (`SingletonClients.TwoAtOnceBuildTwo`).
- Windows of nearby requests coincide when 997 divides the span (`FilterWindows.WindowsCollide`), and only then
  (`FilterWindows.WindowsDiffer`).
- A synthetic query's scope need not keep to the wanted share of the rows: `Selectivity.MissedShares`,
  `Selectivity.MissedShare`, and exactly when it always does: `Selectivity.ScopesKeepShare`.
- `build_filter_result` ignores failing insertions, so unlike `build_packed_filter_result` it can return an object
  with an error pending: `RefOwnership.FailingInsertion`, and exactly when: `RefOwnership.FilterResultWithError`.
- `run_request_set` never ends with a concurrency of zero and some request
  (`RequestGate.EndsUnlessNoPermits`).

`dafny verify dfyconfig.toml` checks the whole project.

## Model

| member | source | states |
|---|---|---|
| JsonScanner.ScanValueSuffix | benchmark/vectordb_perf/run.py:412-418 | what remains after a decoded value is a proper suffix of the text, so a position only moves forward |
| JsonLocality.ScanValueLocal | benchmark/vectordb_perf/run.py:412-418 | if a value is found, replacing any tail of what remains behind it, where no number can run on, gives the same value with the tail replaced |
| JsonLocality.ScanValueExtends | benchmark/vectordb_perf/run.py:412-418 | success on a buffer is stable: with more text appended the same value is found, except that a number may get longer and stays a number |
| JsonLocality.ScanValueCutOut | benchmark/vectordb_perf/run.py:412-418 | the text of a value, cut out of its surroundings, decodes to that value alone |
| JsonGrammar.ScanUnits | benchmark/vectordb_perf/run.py:412-418 | the inside of a string is read as what its units stand for: plain characters, the eight short escapes, four-digit escapes in either case, and pairs of surrogates |
| JsonGrammar.ScanNumberText | benchmark/vectordb_perf/run.py:412-418 | every number text (sign, whole digits without superfluous zeros, fraction, exponent) is read whole, before anything that can stand behind it |
| JsonGrammar.FindNumber | benchmark/vectordb_perf/run.py:412-418 | what is read as a number is such a number text |
| JsonGrammar.ScanTree | benchmark/vectordb_perf/run.py:412-418 | the text of every syntax tree, with any blanks between its parts, is read as the value the tree means |
| JsonGrammar.FindTree | benchmark/vectordb_perf/run.py:412-418 | what is read is the text of a syntax tree that means the value |
| JsonGrammar.ScanIffDenotes | benchmark/vectordb_perf/run.py:412-418 | decoding reads exactly the texts that denote a value in a grammar stated apart from the scanner, and gives that value |
| JsonGrammar.DenotesOne | benchmark/vectordb_perf/run.py:412-418 | a text denotes one value at most |
| JsonGrammar.ScanFindsPrefix | benchmark/vectordb_perf/run.py:412-418 | decoding at a position succeeds exactly if the text there starts with one that denotes a value |
| JsonArrayReader.IterJsonArrayRecords | benchmark/vectordb_perf/run.py:332-429 | for every text, limit and positive chunk size the loop ends with the records and the outcome, error kinds included, of a reading of the whole text; a chunk size of zero or less is refused |
| JsonArrayReader.Reader.constructor | benchmark/vectordb_perf/run.py:344-352 | the fresh buffer and flags stand for the whole reading still to come |
| JsonArrayReader.Reader.Refill | benchmark/vectordb_perf/run.py:354-363 | dropping the consumed part and reading a chunk changes nothing of the reading to come, and brings the end nearer |
| JsonArrayReader.Reader.Finish | benchmark/vectordb_perf/run.py:386-411 | after the closing bracket the outcome is finished exactly if only spaces are left in buffer and file |
| JsonArrayReader.Reader.Record | benchmark/vectordb_perf/run.py:412-429 | a failed decode before the end of the file only asks for more text, and no decode differs from that on the whole text |
| JsonArrayReader.Reader.Turn | benchmark/vectordb_perf/run.py:365-429 | every turn of the loop keeps the reading of the whole text and lowers the measure over unread file, end-of-file flag and unread buffer, or stops with that reading's records and outcome |
| JsonArrayTheorems.LimitTakesPrefix | benchmark/vectordb_perf/run.py:341-342 | a limit n yields exactly the first n records of the unlimited reading, and hides errors that come after them |
| JsonArrayTheorems.ReadLayout | benchmark/vectordb_perf/run.py:365-429 | every array of objects with any white space between its tokens is read to the end and gives its objects in order |
| JsonArrayTheorems.FindLayout | benchmark/vectordb_perf/run.py:365-429 | every text that is read to the end is such a laid-out array |
| JsonArrayTheorems.FinishedIffLayout | benchmark/vectordb_perf/run.py:365-429 | the reader finishes on exactly the laid-out arrays, and yields exactly their objects |
| JsonArrayTheorems.ItemDenotes | benchmark/vectordb_perf/run.py:412-426 | the objects of a laid-out array are exactly the texts between its spaces and commas that denote an object |
| JsonArrayTheorems.ObjectsAreDenoted | benchmark/vectordb_perf/run.py:412-426 | each record yielded is the object its text denotes |
| JsonArrayTheorems.ReadingExplained | benchmark/vectordb_perf/run.py:365-429 | every text splits into the laid-out objects that are yielded and a rest, and the outcome, whichever of the errors it is, says what stands at the start of that rest |
| JsonPrinter.ScanPrinted | benchmark/vectordb_perf/run.py:412-418 | a printed value denotes that value, so decoding gives it back with nothing left |
| JsonPrinter.PrintedArrayReadsBack | benchmark/vectordb_perf/run.py:332-429 | printing objects as an array with any spacing and streaming it back gives the same list; a limit gives its first records |
| TaskLifecycle.LiveWorkerIsGathered | benchmark/custom/session_contention_benchmark.py:682-687 | while a worker is alive the main coroutine waits for it or was aborted, so no drain runs beside a registration |
| TaskLifecycle.RegisterConserves | benchmark/custom/session_contention_benchmark.py:1057-1080 | a registration keeps registered equal to pending plus recorded |
| TaskLifecycle.PollKeeps | benchmark/custom/session_contention_benchmark.py:1091-1111 | one poll keeps every invariant: the task is recorded, or stays in the pass, never both and never neither |
| TaskLifecycle.StepKeepsInv | benchmark/custom/session_contention_benchmark.py:588-613 | every step of main coroutine, worker, server or clock, an exception in a worker included, keeps conservation and justified records, and, unless aborted, the queue balance and the pending final drain |
| TaskLifecycle.ProgramCloses | benchmark/custom/session_contention_benchmark.py:588-613 | for any list of adapters the stages end with the one final drain |
| TaskLifecycle.EveryTaskSettledOnce | benchmark/custom/session_contention_benchmark.py:1082-1137 | in every run that ends, under any interleaving and any answers, the recorded tasks are the registered ones with their multiplicities, none is pending, and each completed or failed record repeats a successful poll |
| TaskLifecycle.AbortLosesNothing | benchmark/custom/session_contention_benchmark.py:639-788 | in every run aborted by an exception that leaves a worker of a queue stage, each registration is still pending or recorded |
| TaskLifecycle.DrainLosesNothing | benchmark/custom/session_contention_benchmark.py:1087-1115 | at every test of the drain loop registered equals pending plus recorded as multisets and no worker is alive, so overwriting `pending_tasks` loses no registration |
| TaskLifecycle.QueueServedOnce | benchmark/custom/session_contention_benchmark.py:639-788 | a queue stage can only end with its queue empty and exactly one request event for each unit it was given, failed calls included |
| TaskTrace.ListsTellTheRun | benchmark/custom/session_contention_benchmark.py:1003-1137 | in every run the registrations are exactly the tasks announced by successful answers with a non-empty id, the completed and failed records exactly the settling replies, and the requests exactly the calls that were answered, all in the order of the steps |
| TaskTrace.Announced | benchmark/custom/session_contention_benchmark.py:1066-1080 | a successful answer with a non-empty id announces one task of its adapter and scenario, any other none |
| TaskTrace.ReplySettles | benchmark/custom/session_contention_benchmark.py:1091-1111 | a successful reply that says completed or failed is recorded once with that status; after any other reply the task stays in the pass |
| TaskDrain.Runner.RegisterTaskIfPresent | benchmark/custom/session_contention_benchmark.py:1057-1080 | exactly the announced task, if there is one, is appended to the pending and the registered tasks; records and requests are unchanged |
| TaskDrain.Runner.FinalizeIncompleteTasks | benchmark/custom/session_contention_benchmark.py:1119-1137 | every pending task gets one incomplete record, in order, and none stays pending |
| TaskDrain.Runner.Pass | benchmark/custom/session_contention_benchmark.py:1087-1115 | one pass over a snapshot of the pending tasks is a legal run of the state machine |
| TaskDrain.Runner.DrainTasks | benchmark/custom/session_contention_benchmark.py:1082-1117 | a whole drain, whatever the server and the clock answer, is a legal run from its entry to its exit, and it ends |
| BackupNames.BackupNameIs | openviking_cli/setup_wizard.py:920-930 | candidate k is the stem with `.conf.bak` and, from the second on, a dot and the number |
| BackupNames.BackupNamesDiffer | openviking_cli/setup_wizard.py:920-930 | the candidates are pairwise different |
| BackupNames.BackupIsNotConfig | openviking_cli/setup_wizard.py:920-930 | no candidate is the config's own name, whatever that name is |
| BackupNames.FirstNamesFit | openviking_cli/setup_wizard.py:920-930 | if the first n candidates all exist the directory has at least n files, so the search for a free one ends |
| ConfigWriter.Directory.NextBackupPath | openviking_cli/setup_wizard.py:920-930 | the result is the first candidate that does not exist |
| ConfigWriter.Directory.WriteSecureBackup | openviking_cli/setup_wizard.py:933-946 | done: a complete copy under the backup's name and nothing else changed; error: nothing changed; crash: the backup is absent or complete and all other files are untouched |
| ConfigWriter.Directory.PrepareConfig | openviking_cli/setup_wizard.py:951-964 | until the replacement the config is untouched; done, which is when all its operations succeed, means that a complete new version waits and that an old config has a complete fresh backup |
| ConfigWriter.Directory.WriteConfig | openviking_cli/setup_wizard.py:949-976 | whichever operation fails or crashes, the config is a complete old or new version, every other file is unchanged, a replaced version has a backup, and without a crash no stray file is left; True means that every operation succeeded |
| ConfigWriter.SurvivesHistory | openviking_cli/setup_wizard.py:949-976 | over any sequence of writes with failures and crashes, a version that survives in the config or a backup survives to the end |
| ConfigWriter.NoVersionLost | openviking_cli/setup_wizard.py:949-976 | every version that was ever the config survives as the config or in some backup |
| ConfigWriter.ConfigIsComplete | openviking_cli/setup_wizard.py:949-976 | an existing config never vanishes and always holds the first version or one that was asked for |
| ConfigWriter.BackupsNeverChange | openviking_cli/setup_wizard.py:933-946 | a file other than the config, in particular every backup, is never changed or removed |
| ConfigWriter.NothingLeftBehind | openviking_cli/setup_wizard.py:943-976 | without a crash every new file beside the config is a backup that holds a version the config had |
| ConfigWriter.WriteOnce | openviking_cli/setup_wizard.py:949-976 | for every list of operation fates: False comes with a changed config exactly if every operation through the replacement succeeded and the `chmod` after it failed |
| ConfigWriter.RefusedButWritten | openviking_cli/setup_wizard.py:966-972 | such a list: False is returned and the new version is the config |
| BoundedMap.StepKeepsInv | benchmark/vectordb_perf/async_utils.py:23-38 | every step keeps the permits balanced, the ready list complete and free of repetitions, and the yields equal to the results taken |
| BoundedMap.InFlightBounded | benchmark/vectordb_perf/async_utils.py:23-29 | for all item counts and schedules at most max(1, concurrency) calls are in flight |
| BoundedMap.EndsWithAllDone | benchmark/vectordb_perf/async_utils.py:33-38 | when the generator is over, by exhaustion, error or abandonment, every task it created is done |
| BoundedMap.EachResultOnce | benchmark/vectordb_perf/async_utils.py:30-32 | on full consumption each item's result is yielded exactly once |
| BoundedMap.YieldsAreResults | benchmark/vectordb_perf/async_utils.py:25-32 | in every run a result yielded for an item is what its one call came back with |
| BoundedMap.EveryResultYielded | benchmark/vectordb_perf/async_utils.py:25-32 | on full consumption every call came back once with a value, and that value was yielded for its item |
| BoundedMap.YieldsInFinishOrder | benchmark/vectordb_perf/async_utils.py:31-32 | results are yielded in the order in which the calls came back |
| BoundedMap.NeverStuck | benchmark/vectordb_perf/async_utils.py:23-38 | until it is over some step is possible |
| BoundedMap.EveryScheduleEnds | benchmark/vectordb_perf/async_utils.py:23-38 | no schedule has more than three steps per item and two more |
| RequestGate.GateHoldsAndBounds | benchmark/cuvs/run_service_concurrency_benchmark.py:165-190 | no request starts before the event is set, and never are more in flight than the semaphore allows |
| RequestGate.OneOutcomeEach | benchmark/cuvs/run_service_concurrency_benchmark.py:192-198 | what is gathered is one outcome for each request, in order, the one it finished with |
| RequestGate.OutcomeKept | benchmark/cuvs/run_service_concurrency_benchmark.py:169-190 | a request that has finished keeps its outcome to the end |
| RequestGate.OutcomesAreEndings | benchmark/cuvs/run_service_concurrency_benchmark.py:169-198 | what is gathered for a request is how its one call ended |
| RequestGate.EndsUnlessNoPermits | benchmark/cuvs/run_service_concurrency_benchmark.py:165-196 | a schedule that can go no further has gathered everything, after two steps per request and two more, if and only if there are permits or no requests |
| PyText.SplitJoin | benchmark/vectordb_perf/run.py:582-583 | splitting undoes joining when no part contains the separator |
| Paths.PathMatches | benchmark/vectordb_perf/run.py:572-579 | true exactly if one of the paths between semicolons, normalised, is the normalised prefix or lies below it |
| Paths.NormalizeWellFormed | benchmark/vectordb_perf/run.py:479-492 | a path of well-formed segments is its own normal form |
| PathSpellings.RootedSpelling | benchmark/vectordb_perf/run.py:479-492 | a well-formed path with spaces around it and slashes behind it normalises to the path |
| PathSpellings.RelativeSpelling | benchmark/vectordb_perf/run.py:479-492 | so does the path without its first slash |
| PathSpellings.UriSpelling | benchmark/vectordb_perf/run.py:479-492 | so does the path as a `viking://` text with any slashes around it |
| PathSpellings.BlankIsRoot | benchmark/vectordb_perf/run.py:479-492 | a text of spaces alone normalises to the root |
| Paths.NormalizeTwice | benchmark/vectordb_perf/run.py:479-492 | normalising is idempotent on a text exactly if, stripped, it is not two or more bare slashes and has no space right before its last slashes |
| Paths.BareSlashesUnstable | benchmark/vectordb_perf/run.py:479-492 | counterexample: two bare slashes normalise to nothing, and that to the root |
| Paths.PartsOfPath | benchmark/vectordb_perf/run.py:582-583 | splitting a path of well-formed segments gives the segments back |
| Paths.PrefixOfPath | benchmark/vectordb_perf/run.py:564-569 | the prefix of a well-formed path is the path of its first segments, at least one |
| PathSpellings.PrefixClamped | benchmark/vectordb_perf/run.py:564-569 | the prefix for any number of segments is the path of at least one and at most all of them |
| PathSpellings.PrefixOfRoot | benchmark/vectordb_perf/run.py:564-569 | every prefix of the root is the root |
| Paths.UnderIsPrefix | benchmark/vectordb_perf/run.py:572-579 | one path text equals or extends another at a slash exactly if the segments are a prefix |
| Paths.MatchesIsPrefix | benchmark/vectordb_perf/run.py:572-579 | on well-formed paths the string test is exactly the prefix order of segments |
| Paths.ManyMatchIsPrefix | benchmark/vectordb_perf/run.py:572-579 | a value of several well-formed paths between semicolons matches exactly if the scope's segments begin one of them |
| ScopeMatching.NormalizeScope | benchmark/vectordb_perf/run.py:479-492 | normalising a path joined from any parts strips the spaces at its end, and with them a last part that is blank |
| ScopeMatching.MatchesOneBegins | benchmark/vectordb_perf/run.py:572-579 | for every text and every scope joined from parts: the string test holds exactly if the text, split at every slash, begins with the parts left of the scope |
| ScopeMatching.AnyBegins | benchmark/vectordb_perf/run.py:572-579 | the same for a value of several texts between semicolons |
| ScopeMatching.PartsOfNormal | benchmark/vectordb_perf/run.py:582-583 | for every text the parts are the non-empty ones of its normal form split at every slash |
| ScopeMatching.FirstPartsMatch | benchmark/vectordb_perf/run.py:572-598 | every text without a semicolon is matched by the scope of its first n parts exactly if its slashes are single up to there and no space cuts the scope short |
| ScopeMatching.SemicolonNeverMatches | benchmark/vectordb_perf/run.py:572-598 | no text with a semicolon is matched by the scope of its own parts |
| ScopeMatching.OwnScopeMatches | benchmark/vectordb_perf/run.py:572-598 | for every text: it is matched by the scope of its own parts exactly if it has no semicolon, single slashes and no last part cut short by a space |
| ScopeMatching.OwnScopeOfNormal | benchmark/vectordb_perf/run.py:572-598 | for a normal form that does not end in a space: exactly if it has no semicolon and is the joined path of its parts |
| PathScopes.Agreement | benchmark/vectordb_perf/run.py:591-594 | the inner loop finds the longest common beginning of two lists |
| PathScopes.CommonPathPrefix | benchmark/vectordb_perf/run.py:586-598 | the loop computes the path of the common beginning of all split paths, the root for none |
| PathScopes.CommonGlb | benchmark/vectordb_perf/run.py:586-598 | the common beginning is the greatest lower bound: a list begins it exactly if it begins every path |
| PathScopes.CommonIgnoresOrder | benchmark/vectordb_perf/run.py:586-598 | order and repetition of the paths do not matter |
| PathScopes.CommonDirectory | benchmark/vectordb_perf/run.py:572-598 | on well-formed paths the common directory matches every path, and a scope matches all of them exactly if it matches the common directory |
| PathScopes.DerivedGtLcaScope | benchmark/vectordb_perf/run.py:633-638 | the scope is the common directory of the paths of the items with the highest score, the root for none |
| PathScopes.DerivedScopeMatches | benchmark/vectordb_perf/run.py:633-638 | if the paths of the items with the highest score are well-formed, the scope matches each of them |
| PathScopes.DerivedScopeMatchesText | benchmark/vectordb_perf/run.py:572-638 | for every corpus and every text: the scope matches it exactly if one of its pieces between semicolons, split at every slash, begins with the parts of the common directory |
| PathScopes.DerivedScopeMatchesExactly | benchmark/vectordb_perf/run.py:572-638 | a highest-scored path without a semicolon is matched by the derived scope exactly if its slashes are single up to the end of the common directory, and that end is not cut short by a space |
| PathScopes.SemicolonScopeMatchesNothing | benchmark/vectordb_perf/run.py:572-638 | a derived scope with a semicolon matches no text at all |
| PathScopes.CollectCases | benchmark/vectordb_perf/run.py:934-988 | the loop sorts the cases, in order, into covered and fallback, and counts the root scopes; nothing is dropped |
| PathScopes.BuildDirectoryCases | benchmark/vectordb_perf/run.py:934-997 | the selected cases are the first of the covered followed by the fallback cases, up to the limit |
| PathScopes.AmongPositions | benchmark/vectordb_perf/run.py:985-988 | the covered cases are, in the order of the queries, exactly those that keep some ground truth or come without sampling, and the fallback cases exactly the others |
| PathScopes.CaseKeepsHighest | benchmark/vectordb_perf/run.py:975-979 | a query's case keeps every sampled id with the highest score, if the paths of these are well-formed |
| PathScopes.CaseKeepsExactly | benchmark/vectordb_perf/run.py:975-979 | for every corpus: a query's case keeps a sampled id exactly if a piece of its path begins with the parts of the derived scope |
| PathScopes.CaseExists | benchmark/vectordb_perf/run.py:970-973 | a query has a directory case exactly if it has ground truth and its highest-scored paths have a directory in common |
| PathScopes.CaseCarries | benchmark/vectordb_perf/run.py:979-984 | the case carries the query's id, and as its scope the path of the common directory |
| PathScopes.CaseTruth | benchmark/vectordb_perf/run.py:944-979 | for every corpus: the case keeps, in order and with repetitions, exactly the sampled ids with a piece of whose path the parts of the scope begin |
| PathScopes.EmittedCaseKeepsHighest | benchmark/vectordb_perf/run.py:940-997 | every emitted directory case belongs to a query and keeps all its sampled ids with the highest score, if the highest-scored paths are well-formed |
| PathScopes.SoleScope | benchmark/vectordb_perf/run.py:633-638 | the scope derived from a single item is the path of that item's parts |
| PathScopes.SemicolonBreaksScope | benchmark/vectordb_perf/run.py:572-598 | counterexample: a path with a semicolon is not matched by its own derived scope |
| PathScopes.DoubledSlashBreaksScope | benchmark/vectordb_perf/run.py:572-598 | counterexample: neither is a path with a doubled slash |
| PathScopes.SpaceBreaksScope | benchmark/vectordb_perf/run.py:479-598 | counterexample: a normal form with neither, but with a space at the end of its last part, is not matched by its own derived scope |
| ResourceUris.SafeIsSegment | benchmark/vectordb_perf/run.py:655-657 | every id becomes a well-formed segment |
| ResourceUris.SafeSegmentIs | benchmark/vectordb_perf/run.py:655-657 | a segment is its value without the spaces around it, allowed characters as they are and all others as underscores; none becomes "item" |
| ResourceUris.UriIsSlashed | benchmark/vectordb_perf/run.py:660-668 | the URI of a well-formed path is the dataset's base followed by its segments and the id |
| ResourceUris.RecordUnderScope | benchmark/vectordb_perf/run.py:660-668 | a record's URI lies under a scope's URI exactly if the scope's segments begin the record's path and id |
| ResourceUris.SyntheticPath | benchmark/vectordb_perf/run.py:645-652 | the loop builds the path of the row's lowest mixed-radix digits, lowest first |
| ResourceUris.SharedDirectories | benchmark/vectordb_perf/run.py:645-652 | two rows share their first k directories exactly if their indices agree modulo fanout^k |
| ResourceUris.SyntheticPathsDiffer | benchmark/vectordb_perf/run.py:645-652 | below fanout^depth different rows have different paths |
| ResourceUris.ScopeSelectsResidue | benchmark/vectordb_perf/run.py:723-752 | a query's scope of k directories selects exactly the rows congruent to its source row modulo fanout^k, the source among them |
| ResourceUris.ResidueClassSize | benchmark/vectordb_perf/run.py:723-752 | residue class r of n rows has ceil((n - r) / m) of them |
| ResourceUris.ScopeSize | benchmark/vectordb_perf/run.py:723-752 | of n rows exactly ceil((n - r) / fanout^k) lie under a query's scope of k directories, r being the residue of its source row |
| Selectivity.ClampedIs | benchmark/vectordb_perf/run.py:708 | the share wanted is moved to the nearest from a billionth to one |
| Selectivity.ExponentIsLeast | benchmark/vectordb_perf/run.py:707-711 | an exponent is at least the one computed exactly if the share times that power of the fanout reaches one |
| Selectivity.SegmentsAreLeast | benchmark/vectordb_perf/run.py:707-711 | the number of directories kept is the least, from one up to the depth, whose residues reach the share, and the whole depth if none does |
| Selectivity.ScopesKeepShare | benchmark/vectordb_perf/run.py:707-752 | every query of every table selects at most the wanted share of the rows, rounded up, if and only if everything is wanted, or the fanout is at least two and the exponent within the depth, a depth below one counting as one |
| Selectivity.ScopesKeepEnough | benchmark/vectordb_perf/run.py:707-752 | with a fanout of two or more no scope cuts too deep: one row more than it selects is above the wanted share of the rows divided by the fanout |
| Selectivity.MissedShare | benchmark/vectordb_perf/run.py:707-752 | otherwise there is a table in which the query made from row 0 selects too many rows |
| Selectivity.MissedShares | benchmark/vectordb_perf/run.py:707-711 | such inputs: half of the rows with a fanout of one, a tenth with a fanout of two and one directory |
| RefOwnership.Native.GetNamedValue | src/abi3_engine_backend.cpp:68-96 | the caller owns one new reference if a value was found and none otherwise; false exactly if an error is left pending |
| RefOwnership.Native.ReadVector | src/abi3_engine_backend.cpp:169-267 | for every list of call fates what was owned before is owned after, and true is returned, with no error pending, exactly if it is a sequence whose items all convert and no call failed |
| RefOwnership.Native.ReadField | src/abi3_engine_backend.cpp:646-662 | so also for one optional field, which may be absent |
| RefOwnership.Native.ReadRequest | src/abi3_engine_backend.cpp:646-833 | so also for every request: true exactly if all its fields convert and no call failed |
| RefOwnership.ReadableMeans | src/abi3_engine_backend.cpp:646-833 | of a request that can be read every field converts, vectors as vectors and scalars as scalars |
| RefOwnership.Native.ReadStorageOp | src/abi3_engine_backend.cpp:784-833 | so also for the storage operation, whose type must be known if it is there and whose key is required |
| RefOwnership.Native.ReadRequestList | src/abi3_engine_backend.cpp:835-861 | so also for a list of requests of any length |
| RefOwnership.Native.BuildList | src/abi3_engine_backend.cpp:269-334 | exactly one more reference is owned, the returned list, if all creations succeed, and none otherwise; null is returned exactly if an error came up |
| RefOwnership.Native.BuildPairs | src/abi3_engine_backend.cpp:1822-1847 | the same for a list of pairs |
| RefOwnership.Native.BuildFilterResult | src/abi3_engine_backend.cpp:1153-1180 | exactly one more reference is owned if all creations succeed and none otherwise; an insertion that fails leaves its error pending beside the object |
| RefOwnership.Native.BuildPackedFilterResult | src/abi3_engine_backend.cpp:1182-1253 | an object exactly if the bitmap fits and all eight calls succeed, and null exactly if an error came up |
| RefOwnership.FilterResultWithError | src/abi3_engine_backend.cpp:1153-1180 | for every list of call fates: an object comes with an error pending exactly if all its creations succeed and one of the three insertions after them fails |
| RefOwnership.FailingInsertion | src/abi3_engine_backend.cpp:1153-1180 | such a list of fates |
| RefOwnership.PackedResultWithoutError | src/abi3_engine_backend.cpp:1182-1253 | for every list of call fates: the packed builder returns an object exactly if no error is pending |
| PackedBitmap.PackWords | src/abi3_engine_backend.cpp:1188-1220 | refuses exactly the bitmaps whose byte length would overflow the signed size, and writes every other one lowest byte first |
| PackedBitmap.UnpackPacked | src/abi3_engine_backend.cpp:1194-1220 | reading the packed bytes as little-endian words gives the words back |
| PackedBitmap.PackedBit | src/abi3_engine_backend.cpp:1205-1214 | bit i of the byte stream is bit i of the word bitmap |
| Singleton.MoveKeepsOwn | openviking/async_client.py:46-51 | a thread's move keeps what that thread relies on and the count of instances |
| Singleton.MoveKeepsOther | openviking/async_client.py:46-51 | a thread's move keeps what every other thread relies on |
| Singleton.StepKeepsInv | openviking/async_client.py:43-110 | every step of every thread keeps the invariant |
| Singleton.AllocationsBounded | openviking/async_client.py:46-51 | for any number of threads and any interleaving, allocations never exceed resets plus one, and reach it exactly while there is an instance |
| Singleton.SameObjectBetweenResets | openviking/async_client.py:46-51 | two results are the same object exactly if no reset completed between their reads; a call returns an object unless a reset completed inside it |
| Singleton.NoneExactlyAfterReset | openviking/async_client.py:46-110 | a call returns None exactly if no allocation followed the last reset completed before its read |
| Singleton.OneObjectWithoutReset | openviking/async_client.py:46-51 | with no reset all constructor calls return the same object |
| Singleton.ReadyMeansClient | openviking/async_client.py:67-82 | `_singleton_initialized` being true implies a constructed client, also when construction raises |
| Singleton.ReadyAfterInitialisation | openviking/async_client.py:67-104 | an instance is marked initialised exactly if, of its initialisations and closes, the end of an initialisation came last |
| Singleton.MutualExclusion | openviking/async_client.py:48-110 | at most one thread is in the locked region |
| Singleton.ResetCanYieldNone | openviking/async_client.py:46-110 | counterexample run: a reset between check and read makes `__new__` return None |
| Singleton.TwoClientsForOneInstance | openviking/async_client.py:67-82 | counterexample run: without any reset two threads build two clients for one instance |
| SingletonClients.OneAtATimeBuildsOne | openviking/async_client.py:67-82 | in every run of constructor calls without close, reset and exceptions in which no two threads are past the guard of an instance at once, at most one client is built for it |
| SingletonClients.TwoAtOnceBuildTwo | openviking/async_client.py:67-82 | from every reachable state in which two are, their going on builds two clients for it |
| Samples.OrderedUnique | benchmark/cuvs/run_index_benchmark.py:77 | ordered lists of the same samples are equal |
| Samples.SortSorts | benchmark/cuvs/run_index_benchmark.py:77 | sorting gives the same samples in order |
| Percentiles.FormsAgree | benchmark/custom/session_contention_benchmark.py:1398-1410 | at pct = 100 q the session harness computes the percentile of the index harness, for every q, index errors included |
| Percentiles.PercentileIgnoresOrder | benchmark/cuvs/run_index_benchmark.py:74-84 | all three percentiles do not depend on the order of the samples |
| Percentiles.PercentileMonotone | benchmark/cuvs/run_index_benchmark.py:74-84 | between 0 and 1 the percentile exists and grows with the quantile |
| Percentiles.PercentileBounds | benchmark/cuvs/run_index_benchmark.py:74-84 | it is the least sample at 0, the greatest at 1, and between them elsewhere |
| Percentiles.PercentileHitsSamples | benchmark/cuvs/run_index_benchmark.py:78-82 | at quantile k / (n - 1) it is the k-th smallest sample |
| Percentiles.InterpolateIsLine | benchmark/cuvs/run_index_benchmark.py:78-84 | between two neighbouring samples it is the straight line through them, both ends included |
| Percentiles.NearestRankIsLeast | benchmark/vectordb_perf/run.py:1546-1551 | for pct in (0, 100] it is the least number with at least pct percent of the samples at or below it, and a sample |
| Percentiles.NearestRankClamps | benchmark/vectordb_perf/run.py:1546-1551 | outside that range it is the least or the greatest sample |
| Percentiles.MedianHalves | benchmark/cuvs/summarize_index_runs.py:71 | at least half of the values are at or below the median, and at most half at or below anything less |
| Percentiles.MedianMirrors | benchmark/cuvs/summarize_index_runs.py:71 | the median of the negated values is the negated median |
| Percentiles.MadHoldsHalf | benchmark/cuvs/summarize_index_runs.py:71-75 | at least half of the values lie within one deviation of the median, and at most half within anything less |
| RunSummary.AddRows | benchmark/cuvs/summarize_index_runs.py:140-146 | succeeds exactly if every row has a backend and no variant repeats; then each row went to the end of its variant's list and no other list changed |
| RunSummary.TakeDocument | benchmark/cuvs/summarize_index_runs.py:134-157 | one document is taken in with all lists extended by its rows, or an error names a fault that rules the summary out |
| RunSummary.GroupFiles | benchmark/cuvs/summarize_index_runs.py:123-157 | succeeds exactly on at least two distinct readable files of independent runs of one benchmark; then every variant's list has exactly one entry per document, in document order; every error names a fault that is there |
| RunSummary.AcceptableIgnoresOrder | benchmark/cuvs/summarize_index_runs.py:123-157 | whether the files are accepted does not depend on their order |
| RunSummary.SummaryIgnoresOrder | benchmark/cuvs/summarize_index_runs.py:67-79 | a metric summary does not depend on the order of the values |
| RunSummary.MetricsIgnoreFileOrder | benchmark/cuvs/summarize_index_runs.py:172-186 | a variant's metrics do not depend on the order of the files |
| RunSummary.SummaryHoldsHalf | benchmark/cuvs/summarize_index_runs.py:67-79 | there is a median exactly if a number is present, and at least half of the numbers present lie within one deviation of it |
| RunSummary.SummaryBounds | benchmark/cuvs/summarize_index_runs.py:67-79 | the count is that of the numbers, and least and greatest are numbers present that bound all of them |
| RunSummary.SummaryHalves | benchmark/cuvs/summarize_index_runs.py:67-79 | at least half of the numbers are at or below the median and at most half at or below anything less, and the same of the deviations |
| RunSummary.SummaryRefuses | benchmark/cuvs/summarize_index_runs.py:55-79 | a summary is refused exactly if something found is no number |
| FilterWindows.WindowSelectsWidth | benchmark/cuvs/run_service_concurrency_benchmark.py:212-221 | from ten rows on a window lies inside the rows and selects exactly its width of them; below ten it selects all |
| FilterWindows.WidthIsNearest | benchmark/cuvs/run_service_concurrency_benchmark.py:213 | the width is the number from 10 to 100 nearest to the number of rows |
| FilterWindows.WindowsWalk | benchmark/cuvs/run_service_concurrency_benchmark.py:215 | the salt counts like the request, and the windows walk from the first row in steps of 997 around the span |
| FilterWindows.MultiplierIsPrime | benchmark/cuvs/run_service_concurrency_benchmark.py:215 | 997 is prime |
| FilterWindows.DividesCofactor | benchmark/cuvs/run_service_concurrency_benchmark.py:215 | a span not divisible by 997 divides 997 d only if it divides d |
| FilterWindows.WindowsDiffer | benchmark/cuvs/run_service_concurrency_benchmark.py:212-221 | if 997 does not divide the span, requests less than one span apart get different windows |
| FilterWindows.WindowsCollide | benchmark/cuvs/run_service_concurrency_benchmark.py:212-221 | if it does, every request shares its window with one less than a span later |
| Buckets.EligibleIsBucketZero | benchmark/cuvs/run_collection_benchmark.py:106-117 | `eligible_count` is exactly the number of rows in uniform bucket 0 |
| Buckets.UniformBelowSize | benchmark/cuvs/run_collection_benchmark.py:68-87 | a range on the uniform bucket selects u rows of each full thousand and at most u of the rest |
| Buckets.ClusterIsPrefix | benchmark/cuvs/run_collection_benchmark.py:120-123 | the rows with a cluster bucket below u are exactly those before ceil(u n / 1000) |
| Buckets.ClusterBelowSize | benchmark/cuvs/run_collection_benchmark.py:68-87 | so a range on the cluster bucket selects ceil(u n / 1000) rows, for u from 0 to 1000 |
| Buckets.ScopePathText | benchmark/cuvs/run_collection_benchmark.py:88-92 | the modelled scopes are the three texts of the source |
| Buckets.PathScopeSelects | benchmark/cuvs/run_collection_benchmark.py:88-141 | the path scope with k directories below `docs` selects exactly the rows divisible by 10^k |
| Buckets.PathScopeIsBucketZero | benchmark/cuvs/run_collection_benchmark.py:88-141 | the 0.1% path scope selects exactly the rows of uniform bucket 0 |

## Left out

- JsonArrayReader.IterJsonArrayRecords: does not model text decoding, Python's limit on digits of an integer, or its recursion limit; numbers keep their text and an object keeps repeated keys as a list of pairs.
- JsonPrinter.PrintedArrayReadsBack: an adjacent high and low surrogate are one code point, so a text that holds them as two is not printable; a number is printed as a text that denotes it.
- TaskLifecycle.EveryTaskSettledOnce: is about runs that reach the end; a run aborted by a worker's exception has no final drain, and exceptions in the main coroutine's own code are not modelled.
- TaskLifecycle.StepKeepsInv: any worker's answer may carry a task id, so stages that ignore theirs are covered as answers without one; payload extraction and event fields other than task, scenario and status are not modelled.
- TaskDrain.Runner.DrainTasks: the clock moves on at each pass; the order of other coroutines' steps between polls is in the state machine, not in the method.
- ConfigWriter.Directory.WriteConfig: does not model permissions, durability across power loss, other processes in the directory, or failing clean-up unlinks; file contents are opaque.
- BoundedMap.EndsWithAllDone: does not model an items iterable that raises while tasks are being created, or a second cancellation during the clean-up.
- RequestGate.EndsUnlessNoPermits: cancellation from outside and a negative concurrency, which the semaphore refuses, are not modelled.
- Paths.NormalizeTwice: is about strings; lists of paths and other values given to `normalize_path` are not modelled.
- PathScopes.BuildDirectoryCases: only the directory cases in derived-scope mode; a missing corpus path, an empty case list and the unfiltered base cases are not modelled.
- ResourceUris.SafeIsSegment: the alphanumeric characters are a parameter that contains no slash, semicolon or space.
- Selectivity.ScopesKeepShare: uses the least exponent in place of rounded floating logarithms.
- RefOwnership.Native.ReadRequest: of a value only whether it converts is modelled; the converted values, error messages and the interpreter lock are not modelled; references a container holds count as handed over, and a fresh list or tuple is taken to accept its items.
- SingletonClients.OneAtATimeBuildsOne: how many clients are built in runs with close, reset or exceptions is not bounded.
- Singleton.ReadyMeansClient: an instance that was closed keeps its client object, as in the source; initialisation of storage is not modelled.
- Percentiles.PercentileMonotone: numbers are exact reals, so rounding and not-a-number are not modelled.
- RunSummary.GroupFiles: file loading, canonical JSON of parameters and the report's runtime fields are parameters of a document or left out.
- Buckets.PathScopeSelects: the index's path filter is taken to be the directory order on texts; the index itself is not part of this model.
- The routing of `prebuild_selective_scenario` beyond its count, and the list of scenarios, are finite tables.
- Forwarding methods of the clients, HTTP adapters, command-line interface, wizard prompts, downloads, report rendering and vector search are wrappers, I/O or not visible in the repository.
