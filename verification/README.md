# EdgeBase: verified models

Dafny models of the parts of EdgeBase whose correctness is hardest to see, with proofs about them.
`dafny verify dfyconfig.toml` checks everything.

- **Cron scheduler** (`packages/shared/src/cron.ts`). `Calendar` is the ECMA-262 UTC calendar over all integers, with
  both directions proved inverse. `FireTime` says what a schedule means. `CalendarSearch` has the nested loops and proves
  that they return the nearest fire time in either direction, and fail only when no representable time matches.
  `CycleBound` is the reason why scanning 401 calendar years is enough. `Satisfiability` says exactly which schedules ever
  fire. `FireSequence` relates next and previous fire times and iteration. `CronText`, `CronField` and `CronExpression`
  cover the grammar, and `NextAlarm` the earliest alarm of several schedules.
- **UTF-8 bounds** (`packages/shared/src/self-host-schedule.ts`). `Utf8` and `TruncateUtf8`, after sections 3 and 4 of RFC 3629.
- **CSV** (`packages/admin/src/lib/csv.ts`). `CsvParser` is the character machine, `CsvLayout` every layout that section 2
  of RFC 4180 allows for a table, `CsvPrinter` the generator and its round trips.
- **Backup engine** (`packages/cli/src/commands/backup.ts`). `WorkerPool`, `ResumableDownload`, `DownloadRuns` and `Restore`
  are state machines whose steps run from one await to the next; the theorems hold for every interleaving, failure and crash
  they allow. `ResumableDownload` is one session directory, `DownloadRuns` any sequence of runs over several.
- **Transaction validator** (`packages/shared/src/transact.ts`). `Transact` is the validator; `CommitModel` is an abstract
  first-writer-wins executor in which the accepted shapes are shown to be safe.
- **Path code generation** (`tools/sdk-codegen/generate.ts`). `PathCodegen` and `PercentEncoding`, after sections 2.1 and 2.3 of RFC 3986.
- **Go client** (`packages/sdk/go/edgebase.go`). `RetryMachine` and `BulkChunks`.
- **Configuration** (`packages/shared/src/config.ts`). `ConfigMaterialize` merges in place; `ConfigGuarantees` says what that promises.

Assumptions about the outside: `/list-dos` is complete, `/wipe-do` leaves an object empty, `/restore-do`, `/restore-data` and
the D1 restores replace the tables they are given, records are keyed by their own `doName`, storage keys have separate file
paths, and no one else changes the target during a restore. One backup runs at a time, and no two start within the same second,
after which session directories are named, so that every fresh run has a directory of its own. `CommitModel` assumes an executor
with snapshots in which the first writer of a row wins.

Where a promise turned out not to hold everywhere, the model keeps the code's behaviour and states exactly when the promise holds:

- `truncateUtf8` loses a leading byte order mark (`LongestPrefixIffNoCutBom`).
- Mixed line breaks can hide an empty CSV line (`ParseIsRightIff`), and re-exporting a CSV can shorten it (`ReexportIdenticalIff`).
- Downloads done so far are made again in a new directory when the process that made them ends with a torn manifest
  (`DoneRevertsIffTorn`, `TornManifestLosesDone`), and also when it ends with nothing pending but before the archive is made,
  because a directory without pending objects is not offered for resuming (`CompleteIsDownloadedAgain`). In all
  other cases the directory can be resumed (`NeverReturnsIff`), though the user may decline.
- The orphan check of a restore compares names only, so an object of the other type with a backed-up name survives
  (`CompleteMeansRestored`, `AliasSurvives`).
- The fence check is stricter than its order-free reading when guards disagree (`FirstGuardVersusSomeGuard`,
  `DisagreeingGuardsDiffer`), and an accepted transaction may stop being accepted when a write follows (`AppendingIsSafeIff`).
- The TypeScript path builder needs distinct parameters (`TypeScriptRightIffDistinct`, `RepeatedParameterBreaks`). With a repeated
  one the generated function also has two arguments of one name and does not compile.
- A large Retry-After overflows, and is then not honoured (`HonouredIff`).
- Room accessors can miss a legacy handler before the configuration is materialized (`RawAccessorsMayLoseLegacy`,
  `RawAccessorLosesActions`). Materializing itself can drop one beside a canonical key that holds undefined
  (`EquivalenceIsSafeIff`, `MaterializingCanDropHandler`).

## Model

| member | source | states |
|---|---|---|
| Calendar.CivilRoundTrip | packages/shared/src/cron.ts:146-153 | The day number of the date that a day number stands for is that day number |
| Calendar.DayNumberRoundTrip | packages/shared/src/cron.ts:146-153 | Every valid proleptic Gregorian date is recovered from its day number |
| Calendar.SpillDetectsInvalidDates | packages/shared/src/cron.ts:178-182 | Reading a date back after setUTCFullYear gives the requested fields exactly when the date exists |
| Calendar.DatesRepeat | packages/shared/src/cron.ts:140-172 | Month and day repeat 400 years later, in either direction |
| Calendar.WeekdaysRepeat | packages/shared/src/cron.ts:140-172 | Weekdays repeat 400 years later: a cycle is a whole number of weeks |
| Calendar.WeekdayOfDate | packages/shared/src/cron.ts:178-184 | The weekday of every valid date is the one that Zeller's congruence gives for its year, month and day |
| Calendar.DaysInSuccession | packages/shared/src/cron.ts:146-153 | Days are counted from Thursday, 1 January 1970; the day after every date has the next number and the next weekday |
| FireTime.FireTimesByDate | packages/shared/src/cron.ts:130-138 | A time is a fire time exactly when it is a listed minute of an existing listed date with a listed Zeller weekday, within 100 million days of the epoch |
| CycleBound.FireTimesRepeat | packages/shared/src/cron.ts:169-172 | A time is a fire time exactly when its counterpart any number of cycles away is |
| CycleBound.CandidateWithinCycle | packages/shared/src/cron.ts:169-174 | If any representable time qualifies, one lies in the reference year or the 400 after it in the direction |
| CalendarSearch.SortedCronValues | packages/shared/src/cron.ts:142-144 | The result has exactly the set's members, strictly ordered along the direction |
| CalendarSearch.FindInDay | packages/shared/src/cron.ts:187-199 | The nearest qualifying minute of a matching day, or a proof that the day has none |
| CalendarSearch.FindOnDate | packages/shared/src/cron.ts:177-201 | The nearest qualifying minute of a date, or a proof that there is none, because the date does not exist, has an unlisted weekday or has no qualifying minute |
| CalendarSearch.FindInYear | packages/shared/src/cron.ts:175-201 | The nearest qualifying minute of a year, invalid dates skipped, or a proof that the year has none |
| CalendarSearch.FindCalendarFireTime | packages/shared/src/cron.ts:155-205 | For every in-range schedule, finite reference and direction: the nearest fire time, and an error only if no representable time qualifies |
| CalendarSearch.GetNextFireTime | packages/shared/src/cron.ts:208-210 | The least fire time strictly after the reference |
| CalendarSearch.GetPreviousFireTime | packages/shared/src/cron.ts:218-220 | The greatest fire time at or before the reference |
| FireTime.AnswersAgree | packages/shared/src/cron.ts:155-205 | The search result is determined by the set of fire times, the reference and the direction |
| FireSequence.PreviousOfNextIsNext | packages/shared/src/cron.ts:207-220 | The backward search at the answer of the forward search answers that time itself |
| FireSequence.PreviousJustBeforeNext | packages/shared/src/cron.ts:207-220 | One millisecond before the answer of the forward search, the backward search answers, or fails, as at the original reference |
| FireSequence.MatchesOnlyPreviousMinute | packages/shared/src/cron.ts:130-220 | From the backward to the forward answer, the schedule matches exactly during the minute of the backward one |
| FireSequence.IterationEnumerates | packages/shared/src/cron.ts:207-210 | Iterating the next fire time lists every fire time up to the last one found, once each and in order |
| FireSequence.IterationReaches | packages/shared/src/cron.ts:207-210 | Iterating the next fire time gets to every later fire time |
| FireSequence.MatchesIffPreviousIsOwnMinute | packages/shared/src/cron.ts:130-138 | A time matches the schedule exactly when its own minute is its previous fire time |
| Satisfiability.EveryWeekdayOccurs | packages/shared/src/cron.ts:155-205 | Every date of a leap year falls on every weekday in some leap year from 2004 to 2028 |
| Satisfiability.FiresIffRealizable | packages/shared/src/cron.ts:105-205 | A parsed schedule fires on either side of every time exactly when some listed month has some listed day, 29 February included |
| Satisfiability.SearchSucceedsIffRealizable | packages/shared/src/cron.ts:155-205 | A cycle away from the edge of representable time, the search succeeds exactly for those schedules |
| CronField.MatchInvertsText | packages/shared/src/cron.ts:64-72 | A segment matches the pattern with given captures exactly when it is the text of those captures |
| CronField.SegmentTextDenotes | packages/shared/src/cron.ts:71-98 | A star, number, number with step or range denotes exactly its steps, N/step running to the field's maximum, and nothing when out of bounds |
| CronField.NumberReadsDecimal | packages/shared/src/cron.ts:73-92 | Digits have a value exactly when they are its decimal text behind any number of zeros |
| CronField.OnlyHugeOverflows | packages/shared/src/cron.ts:73-76 | No step that a field has room for overflows; steps from 2^1024 on do, and none below 2^1023 |
| CronField.StarMeans | packages/shared/src/cron.ts:80-83 | `*` lists the whole field, and `*/n` every n-th value of it from its minimum |
| CronField.NumberMeans | packages/shared/src/cron.ts:91-95 | `x` lists x alone, and `x/n` every n-th value from x to the field's maximum, when x is within the bounds |
| CronField.RangeMeans | packages/shared/src/cron.ts:83-90 | `x-y` lists x to y, and `x-y/n` every n-th of them, when both are within the bounds and in order |
| CronField.FieldDenotes | packages/shared/src/cron.ts:57-102 | A value is in a field exactly when one of its comma-separated segments denotes it |
| CronField.FieldInRange | packages/shared/src/cron.ts:50-102 | An accepted field is non-empty and within its bounds |
| CronField.ParseCronField | packages/shared/src/cron.ts:57-102 | The collecting loop computes the field's denotation or its first error |
| CronField.AddProgression | packages/shared/src/cron.ts:98-98 | The stepping loop adds exactly the segment's progression |
| CronExpression.ParsedScheduleIsComplete | packages/shared/src/cron.ts:105-119 | An accepted expression gives an in-range schedule with no empty field |
| CronExpression.FirstErrorIsReported | packages/shared/src/cron.ts:111-118 | A five-field expression is rejected with the error of its first bad field, weekdays checked first |
| CronExpression.MatchesIffFieldsList | packages/shared/src/cron.ts:105-138 | An accepted expression matches a time exactly when each of its five fields, weekdays counted from 1 on Sunday, lists that component |
| CronExpression.LayoutIsIrrelevant | packages/shared/src/cron.ts:105-119 | The schedule depends on the fields alone, not on the white space between and around them |
| CronText.WordsOfJoin | packages/shared/src/cron.ts:125-125 | Splitting at white space undoes joining words with single spaces |
| CronText.WordsOfLayout | packages/shared/src/cron.ts:106-106 | Trimming and splitting find the fields of any layout with any white space between and around them |
| CronExpression.NormalizeKeepsSchedule | packages/shared/src/cron.ts:122-128 | Accepts exactly the parsable expressions of 1 to 256 bytes (the second bound check cannot fail); gives the five fields joined by single spaces, keeps the schedule, never lengthens the text, and is idempotent |
| NextAlarm.GetNextAlarm | packages/shared/src/cron.ts:222-241 | No alarm without schedules, else the least of the next fire times with exactly the functions that attain it, in order; an error only if the reference time is not finite or some schedule never fires again |
| Utf8.DecodeInvertsEncode | packages/shared/src/self-host-schedule.ts:61-63 | Decoding an encoding gives the string back |
| Utf8.DecodedIsCanonical | packages/shared/src/self-host-schedule.ts:71-74 | The fatal decoder accepts encodings only |
| Utf8.DecodePrefix | packages/shared/src/self-host-schedule.ts:72-78 | Decoding a cut encoding succeeds exactly on a character boundary |
| TruncateUtf8.TruncateUtf8 | packages/shared/src/self-host-schedule.ts:65-80 | The string itself if it fits, else its longest fitting prefix less a leading byte order mark, within four tries; the last return is dead code |
| TruncateUtf8.LongestPrefixIffNoCutBom | packages/shared/src/self-host-schedule.ts:65-80 | The result is the longest fitting prefix unless a string opening with a byte order mark is cut after it, and then lacks just the mark |
| TruncateUtf8.BomIsLost | packages/shared/src/self-host-schedule.ts:71-74 | A marked string cut at four bytes loses its mark |
| CsvParser.ParseCSV | packages/admin/src/lib/csv.ts:12-80 | The loop over row and field buffers computes the machine that the layout theorems are about |
| CsvLayout.ParseRecoversTable | packages/admin/src/lib/csv.ts:12-80 | Any table in any layout, with optional quoting and a break after each row, parses to the table less trailing blank rows |
| CsvLayout.TableComesBack | packages/admin/src/lib/csv.ts:68-80 | The first row comes back as headers and the others, up to the last with a non-empty cell, as rows, when cells with commas, quotes or line breaks are quoted |
| CsvLayout.OneKindOfBreak | packages/admin/src/lib/csv.ts:43-55 | One kind of line break throughout a file meets the condition on breaks |
| CsvLayout.ParseIsRightIff | packages/admin/src/lib/csv.ts:12-80 | A layout with any mixture of breaks parses to its table exactly when no merged break hides a line before a row that is not blank |
| CsvLayout.MergedBreaksLoseARow | packages/admin/src/lib/csv.ts:43-49 | CR followed by an empty line ending in LF reads as one break |
| CsvPrinter.GenerateCSV | packages/admin/src/lib/csv.ts:83-101 | The text is the printed table of the columns and each record's cells, absent values empty |
| CsvPrinter.PrintTableIsLayout | packages/admin/src/lib/csv.ts:83-128 | The printed text is a CRLF layout of the table that quotes every cell that needs it |
| CsvPrinter.NeutralizeTwice | packages/admin/src/lib/csv.ts:114-121 | Neutralizing twice is neutralizing once, and only empty cells stay empty |
| CsvPrinter.CellIsWritten | packages/admin/src/lib/csv.ts:103-128 | A cell is written as it is, with an apostrophe before one of the six formula characters, and in quotes exactly around a comma, quote or line break |
| CsvPrinter.NoFormulaComesBack | packages/admin/src/lib/csv.ts:12-128 | No exported cell comes back beginning with = + - @ tab or CR; one that did has one apostrophe in front, and every other cell is unchanged |
| CsvPrinter.ParseOfPrint | packages/admin/src/lib/csv.ts:12-128 | Print then parse gives the table with every cell neutralized and trailing blank rows removed |
| CsvPrinter.NoColumnsNoTable | packages/admin/src/lib/csv.ts:74-101 | With no columns the parsed table is empty |
| CsvPrinter.SecondRoundTripIsIdentity | packages/admin/src/lib/csv.ts:12-128 | A second export and import changes nothing |
| CsvPrinter.ReexportIdenticalIff | packages/admin/src/lib/csv.ts:69-128 | Re-export gives identical text exactly when the last row is not blank or the table is one row without cells or with one empty cell |
| CsvPrinter.ReexportCanShorten | packages/admin/src/lib/csv.ts:69-128 | A header above a blank row is re-exported without that row and its line break |
| CsvPrinter.RecordsKeepTable | packages/admin/src/lib/csv.ts:90-97 | With distinct headers, records keyed by header print the same table as aligned cells |
| WorkerPool.StartHolds | packages/cli/src/commands/backup.ts:341-341 | After spawning, each of min(limit, n) workers holds one task and the invariant holds |
| WorkerPool.SettleKeepsInv | packages/cli/src/commands/backup.ts:323-339 | Every completion keeps the claim invariant and leaves no worker idle while an index is unclaimed |
| WorkerPool.InFlightIsBounded | packages/cli/src/commands/backup.ts:323-341 | At most min(limit, n) tasks are in flight |
| WorkerPool.ClaimsNeverChange | packages/cli/src/commands/backup.ts:324-326 | Indices are handed out in order, each to one worker, for good |
| WorkerPool.PoolIsCorrect | packages/cli/src/commands/backup.ts:316-343 | Under every schedule and rejection pattern: bounded, no idle worker, exactly n completions, and every result is its own task's outcome |
| WorkerPool.CollectSettledFailures | packages/cli/src/commands/backup.ts:365-377 | The labelled reasons of the rejected tasks, in task order |
| WorkerPool.FailureLinesComplete | packages/cli/src/commands/backup.ts:365-377 | The list has just one line for each rejected task, in order: its label, or task- and its number from one, and its reason |
| ResumableDownload.StepKeepsInv | packages/cli/src/commands/backup.ts:978-1034 | Ends of downloads, workers going on, failures, crashes inside writes, ends and resumes keep the directory truthful |
| ResumableDownload.SomethingCanRun | packages/cli/src/commands/backup.ts:323-339 | Until the pool is finished some download can end or some worker can go on |
| ResumableDownload.SessionEnds | packages/cli/src/commands/backup.ts:995-1031 | A session ends after exactly two steps for each pending object, and if no download failed every object is then done, on disk and in the manifest |
| ResumableDownload.CompletedCountOvershoots | packages/cli/src/commands/backup.ts:1000-1015 | With two downloads started and one completed, completedCount already says two |
| DownloadRuns.DoneMeansDownloaded | packages/cli/src/commands/backup.ts:1009-1017 | Over all runs, an object that a manifest on disk calls done has its whole file in that directory, and the count is no less than the done objects |
| DownloadRuns.DoneRevertsIffTorn | packages/cli/src/commands/backup.ts:897-1017 | A persisted done is missing later if and only if the latest write of that manifest was torn, and the process at work never forgets it |
| DownloadRuns.DoneIsNeverRestarted | packages/cli/src/commands/backup.ts:995-1004 | No later step of any run starts a download of a done object in its directory |
| DownloadRuns.ResumableIff | packages/cli/src/commands/backup.ts:897-929 | When nothing runs, a directory can be resumed exactly when the latest write of its manifest was not torn and an object is pending |
| DownloadRuns.TornIsAbandoned | packages/cli/src/commands/backup.ts:907-929 | A directory with an unreadable manifest and no process is never returned to |
| DownloadRuns.NeverReturnsIff | packages/cli/src/commands/backup.ts:897-929 | When nothing runs, no continuation ever works in a directory again if and only if the latest write of its manifest was torn or nothing is pending in it |
| DownloadRuns.TornManifestLosesDone | packages/cli/src/commands/backup.ts:897-1017 | A run in which an object is done, a second manifest write is torn by a crash, and the next run downloads the object again |
| DownloadRuns.CompleteIsDownloadedAgain | packages/cli/src/commands/backup.ts:911-1031 | A run without any fault in which all objects are done, the process ends, and the next run cannot resume and downloads them again |
| DownloadRuns.CleanSessionCompletes | packages/cli/src/commands/backup.ts:1019-1031 | In every run, a session that has ended without a failure leaves every object of its directory done, on disk and in the manifest |
| DownloadRuns.DownloadsAreThrottled | packages/cli/src/commands/backup.ts:1019-1019 | At most five downloads are in flight |
| Restore.StepKeepsInv | packages/cli/src/commands/backup.ts:1349-1575 | Every call, failed or not, keeps what the phases so far have established, and the run is doomed exactly when a call has failed |
| Restore.CompleteMeansRestored | packages/cli/src/commands/backup.ts:1349-1575 | A completed run had no failed call; every object, namespace and file of the backup is in its own place with its own contents, storage holds nothing else, what the backup lacks is untouched, and exactly the backup's objects are left if and only if the target held no same-named object of the other type |
| Restore.FailureIsFinal | packages/cli/src/commands/backup.ts:1392-1574 | After any failed call the run never completes |
| Restore.CanComplete | packages/cli/src/commands/backup.ts:1349-1575 | Every run in which no call has failed can be continued to completion |
| Restore.RunIsBounded | packages/cli/src/commands/backup.ts:1349-1575 | Every run ends within one step for each listed object and each item, and nine more |
| Restore.StagesAreThrottled | packages/cli/src/commands/backup.ts:1443-1562 | At most ten objects, four namespaces or five files are restored at a time |
| Restore.AliasSurvives | packages/cli/src/commands/backup.ts:1397-1405 | From every target with a same-named object of the other type some run completes with that object untouched |
| Restore.AliasExists | packages/cli/src/commands/backup.ts:1397-1405 | A target and a backup with such an object |
| Transact.FindEqualityValue | packages/shared/src/transact.ts:59-72 | The loop finds the value of the first equality on the field |
| Transact.ValidateNegativeTransactExpectations | packages/shared/src/transact.ts:112-128 | Rejects exactly the transactions with an insert, update or delete in which an expectation of absence is sealed neither by an insert nor by a fence |
| Transact.AcceptedSpelledOut | packages/shared/src/transact.ts:31-128 | The verdict in terms of the operations' fields: op names, the exact id, the fence's three strings, the first pinned scalar revision before, and a change of it before |
| Transact.FirstGuardVersusSomeGuard | packages/shared/src/transact.ts:82-103 | The first-guard check implies the order-free one, equals it when guards agree, and differs exactly when every revision set is the first guard's while guards disagree |
| Transact.DisagreeingGuardsDiffer | packages/shared/src/transact.ts:82-103 | Two disagreeing guards and an update to the first one's revision satisfy the order-free reading and not the code's |
| Transact.DroppingNegativeKeepsAccepted | packages/shared/src/transact.ts:112-128 | Removing a negative expectation keeps a transaction accepted |
| Transact.AppendingIsSafeIff | packages/shared/src/transact.ts:112-128 | Whatever operations other than negative expectations follow, the transaction is accepted, if and only if its negative expectations are all sealed; for one that writes, if and only if it is accepted |
| Transact.AppendingKeepsAccepted | packages/shared/src/transact.ts:112-128 | Appending other operations to a writing transaction keeps it accepted |
| Transact.AppendedWriteCanUnseal | packages/shared/src/transact.ts:115-118 | A read-only transaction can become unacceptable when a write is appended |
| CommitModel.AcceptedIsCovered | packages/shared/src/transact.ts:31-128 | Every expectation of absence in an accepted transaction that inserts, updates or deletes anything relies on a key in its write set |
| CommitModel.StepKeepsInv | packages/shared/src/transact.ts:106-111 | Begins and first-writer-wins commits keep writers of one key serial |
| CommitModel.OverlappingReliersNeverBothCommit | packages/shared/src/transact.ts:106-111 | In every run, overlapping accepted transactions that rely on the same id or fence never both commit |
| CommitModel.ExpectedMissingAtCommit | packages/shared/src/transact.ts:106-111 | A row expected missing by id is still missing when its transaction commits |
| CommitModel.ReliedRowUnmovedAtCommit | packages/shared/src/transact.ts:106-111 | The row relied on, a fence row in particular, is at commit still the snapshot's |
| CommitModel.FencedExpectationHoldsAtCommit | packages/shared/src/transact.ts:74-111 | If every commit that makes a row match a condition writes the fence row, a fenced expectation of no such row that held in the snapshot holds at commit |
| PathCodegen.BuildPath | tools/sdk-codegen/generate.ts:358-365 | The loop of the TypeScript, Go and Rust builders replaces the parameters one after another |
| PathCodegen.CppBuildPath | tools/sdk-codegen/generate.ts:1538-1552 | The loop cuts the path at each parameter in turn |
| PathCodegen.ExtractFindsParameters | tools/sdk-codegen/generate.ts:221-221 | The pattern finds exactly the parameters of every template whose names are letters, digits and underscores, in order |
| PathCodegen.ExtractIsExact | tools/sdk-codegen/generate.ts:221-221 | Over every path, the pattern finds exactly the non-empty names of letters, digits and underscores that stand in braces, in order |
| PathCodegen.GeneratedPathsMeanSubstitution | tools/sdk-codegen/generate.ts:637-647 | The Go, Rust and C++ forms, and the TypeScript one for distinct parameters, evaluate to the simultaneous substitution |
| PathCodegen.TypeScriptRightIffDistinct | tools/sdk-codegen/generate.ts:358-365 | With arguments free of dollar signs the TypeScript form evaluates to the simultaneous substitution exactly when no parameter repeats |
| PathCodegen.TypeScriptAlwaysRightIffDistinct | tools/sdk-codegen/generate.ts:358-365 | It does so for all arguments exactly when no parameter repeats |
| PathCodegen.RepeatedParameterBreaks | tools/sdk-codegen/generate.ts:358-365 | A parameter at two places evaluates to a stray dollar sign and the argument at the first and the unfilled place at the second |
| PercentEncoding.EncodePathParam | tools/sdk-codegen/generate.ts:1440-1459 | The loop encodes byte by byte |
| PercentEncoding.EncodingIsExact | tools/sdk-codegen/generate.ts:1440-1459 | Letters, digits and -._~ stand for themselves and every other byte for %XX with upper-case digits, so nothing else occurs |
| PercentEncoding.DecodeInvertsEncode | tools/sdk-codegen/generate.ts:1440-1459 | Percent-decoding gives the bytes back, and the encoding has no slash |
| PercentEncoding.CppPathsAreInjective | tools/sdk-codegen/generate.ts:1538-1552 | With whole-segment parameters, equal C++ paths come from equal arguments |
| RetryMachine.Do | packages/sdk/go/edgebase.go:240-316 | Against any server, which sends happen, which waits, and which reply decides; the code after the loop is dead |
| RetryMachine.SentAgainIff | packages/sdk/go/edgebase.go:264-290 | A request is sent again exactly after 429, at most three times, or after a retryable transport error, at most twice and only with GET, PUT, DELETE, HEAD or OPTIONS in any case of letters, unless the wait is cancelled |
| RetryMachine.OutcomeByReply | packages/sdk/go/edgebase.go:268-310 | Statuses from 400 are errors, 204 and empty bodies give nothing, and other bodies are decoded |
| RetryMachine.WaitsAsAsked | packages/sdk/go/edgebase.go:154-167 | A wait after 429 is the header's seconds, or else 1, 2, 4 and 8 seconds in turn, up to a quarter longer and at most ten seconds; one after a transport error is 50 and then 100 ms |
| RetryMachine.OneWaitIsBounded | packages/sdk/go/edgebase.go:154-167 | No wait exceeds ten seconds, whatever the header, jitter and overflow |
| RetryMachine.CallIsBounded | packages/sdk/go/edgebase.go:240-316 | One to four sends and at most thirty seconds of waiting |
| RetryMachine.NonIdempotentExecutesAtMostOnce | packages/sdk/go/edgebase.go:264-290 | For a non-idempotent method every send but the last was answered 429 |
| RetryMachine.PostAndPatchAreNotIdempotent | packages/sdk/go/edgebase.go:184-191 | POST and PATCH in any mixture of upper and lower case are not idempotent |
| RetryMachine.HonouredIff | packages/sdk/go/edgebase.go:154-167 | A Retry-After is waited out, up to ten seconds, whatever the jitter, exactly when its base delay did not wrap below that and a quarter more fits into an int64 |
| RetryMachine.HonouredUpTo | packages/sdk/go/edgebase.go:154-167 | For headers whose nanoseconds fit into an int64 that is a bound of 7378697629 seconds |
| RetryMachine.HugeRetryAfterOverflows | packages/sdk/go/edgebase.go:154-167 | Beyond, the delay can be negative |
| BulkChunks.ChunksPartition | packages/sdk/go/edgebase.go:853-859 | Chunks concatenate to the records, hold at most 500, and all but the last exactly 500 |
| BulkChunks.SendMany | packages/sdk/go/edgebase.go:834-866 | Chunks go out in order until one fails, each answered in its own turn; success returns all rows in order |
| ConfigMaterialize.Config.Materialize | packages/shared/src/config.ts:1533-1567 | The in-place update ends in the specified settings or the first error, and a marked object is untouched |
| ConfigMaterialize.Config.MergeTables | packages/shared/src/config.ts:1542-1560 | Plugin tables are merged in order into their blocks, or the first collision is reported |
| ConfigMaterialize.Config.NormalizeRoomConfig | packages/shared/src/config.ts:1613-1663 | Every room is normalized in place, or the first conflict is reported |
| ConfigMaterialize.Config.NormalizeServiceKeys | packages/shared/src/config.ts:1578-1588 | Every secret shorthand is rewritten in place |
| ConfigGuarantees.MaterializeAgainChangesNothing | packages/shared/src/config.ts:1533-1567 | Materializing the result again succeeds and changes nothing, without the marker |
| ConfigGuarantees.MaterializesIff | packages/shared/src/config.ts:1533-1567 | Accepts exactly the configurations without two different tables in one place, legacy syntax, or a room whose two shapes disagree |
| ConfigGuarantees.NoTableLostOrOverwritten | packages/shared/src/config.ts:1542-1560 | On success the tables are exactly the user's own and the plugins', in the plugin's block or `shared`, under plugin/table, each with its own configuration |
| ConfigGuarantees.SecretsSurvive | packages/shared/src/config.ts:1578-1588 | Every shorthand secret becomes the inline secret of its key, and no other key changes |
| ConfigGuarantees.AccessorsPreferCanonical | packages/shared/src/config.ts:1481-1531 | On a materialized room every accessor gives the canonical value if there was one, else the legacy handler |
| ConfigGuarantees.RawAccessorsMayLoseLegacy | packages/shared/src/config.ts:1481-1500 | Before that, an accessor loses a legacy handler exactly when its canonical parent is given without it |
| ConfigGuarantees.RawAccessorLosesActions | packages/shared/src/config.ts:1481-1500 | A room with canonical timers and legacy actions, whose actions the accessor misses until the room is normalized |
| ConfigGuarantees.EquivalentDifferAtUndefined | packages/shared/src/config.ts:1600-1611 | Records that pass for equivalent and differ do so at a key of the first that holds undefined and is absent from the second |
| ConfigGuarantees.EquivalenceIsSafeIff | packages/shared/src/config.ts:1600-1611 | No legacy handler is dropped beside an equivalent canonical record, whatever the legacy one, if and only if no canonical value is undefined |
| ConfigGuarantees.MaterializingCanDropHandler | packages/shared/src/config.ts:1613-1645 | A room that is accepted with both shapes and loses its legacy handler |
| ConfigGuarantees.ValidateTableUniqueness | packages/shared/src/config.ts:2059-2072 | Accepts exactly when no table name is in two blocks, and otherwise names a shared table and both blocks |

## Left out

- Strings with lone surrogates: strings are sequences of Unicode scalar values, so TextEncoder's replacement of lone surrogates does not arise.
- Error texts that interpolate values are shortened; which error comes first is modelled.
- Schedule identity strings (`appFunctionScheduleIdentity` and its siblings): plain concatenation, and not injective for arbitrary names.
- `throttle`, the variant of the pool that stops a worker on its first rejection: it shares the index discipline of `throttleSettled`.
- Tasks that throw before their first await: every task of the backup engine is an async function, so none does.
- WorkerPool, ResumableDownload, DownloadRuns and Restore are state machines on values: the manifest object, counters and result array are parts of the state, not heap objects.
- DownloadRuns: which resumable directory is taken is the user's answer, so any may be; objects are numbered as their listing lists them, and the archive with the removal of a completed directory is not modelled. JSON writing is one write that a crash or an error may tear, and a torn manifest cannot be parsed.
- Restore: the refused start of a backup with storage metadata but no files, resynchronization and secrets (best effort), and namespaces or storage that the backup does not contain.
- CommitModel: the real database executors; only the stated commit rule is used. A later update may set a fence back to its expected value within one transaction, and no claim is made about that value.
- CSV type inference, JSON.stringify, number printing and inherited record properties: a record is a map to strings.
- PathCodegen: literal text with braces, dollar signs, percent signs, quotes or backslashes, which the generated strings would need to escape; the Go and Rust encoders themselves, for which an argument stands already encoded.
- RetryMachine.HonouredIff: jitter is computed over the reals, without the rounding of float64.
- RetryMachine.Do: bodies that cannot be marshalled and requests that cannot be built end the call before any send; header contents and JSON payloads are reduced to what the control flow looks at, and the transport-error keywords to one flag.
- BulkChunks.SendMany: InsertMany and UpsertMany share it, since they differ only in the query they pass on.
- ConfigMaterialize.Config.Materialize: which settings count as legacy syntax is an input; other configuration sections are not changed by the code and are absent. Blocks and rooms are values, so one object shared between two of them is not covered.
- ConfigMaterialize.Config.NormalizeRoomConfig: rooms are values, so a `state` or `hooks` object shared by two rooms, which the code would write through, is not covered.
- Page code, routing, email, SDK wrappers, documentation tools and the remaining configuration checks.
