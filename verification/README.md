# A verified model of the bus-reliability collector

The collector polls a transit agency's GTFS-Realtime feeds, keeps the raw bytes
in hourly compressed shards, infers the service day of every trip, merges the
predictions of each poll into one row per (service date, trip, stop, modified),
rolls those rows up by day and by trailing window, and guards all of it with an
off-site copy, generational backups and a drop guard on old partitions. This
project models that pipeline in Dafny and proves what each of its state machines
keeps over whole runs.

| file | models |
|---|---|
| `Text.dfy`, `Calendar.dfy` | decimal and date strings, JavaScript `<` on strings, the Gregorian calendar, weeks |
| `ServiceDay.dfy` | service-day arithmetic over any time zone that changes its clock at night |
| `Transform.dfy` | one feed to observation rows: anchoring a trip, matching, merging duplicates, counters |
| `Upsert.dfy` | the keyed table and its insert-or-update statement |
| `Schedule.dfy` | the calendar expansion and the lazily filled schedule cache |
| `Pipeline.dfy` | a poll end to end with everything that can fail in it, and when a later poll fills a row in |
| `Rebuild.dfy` | when replaying the archive rebuilds the table |
| `Archive.dfy`, `HourlyArchive.dfy` | the hourly archive over a file system that can fail, and a process that can die |
| `ArchiveLoss.dfy`, `ArchiveHours.dfy`, `ArchiveOutcome.dfy` | exactly what the archive can lose, what its final shards hold hour by hour, and what each step and a run without failures leave |
| `DriveKeys.dfy`, `DriveSync.dfy` | remote names of shards; upload, confirmation by hash, pruning |
| `Retention.dfy` | generational backup retention, night after night |
| `Rollups.dfy` | the two stages of aggregation and the freshness they depend on |
| `Partitions.dfy` | weekly partitions: creation, the drop guard, any sequence of jobs |
| `DropGuard.dfy`, `Settling.dfy` | when a guarded drop leaves the figures right; which dates a poll can write, and which rollups come too early |
| `Shutdown.dfy` | concurrent poll loops and their shutdown |
| `Wilson.dfy`, `Regression.dfy` | the site's confidence interval and its outlier flag |

Conventions. Dates are day numbers; `Calendar` proves that this is the same as
working on `YYYY-MM-DD` strings. Instants are milliseconds. The time zone
database is a function from instants to offsets; `ServiceDay.RegularZone` says
what the source relies on at src/util/time.ts:110-112 (offsets from -8h to -4h,
one-hour changes between 00:00 and 04:00 local time, three days apart or more),
and `ServiceDay.SpringForwardIsRegular` shows a zone that meets it. Arithmetic
on delays is exact, on integers and reals; square roots are parameters
constrained to be roots. What the outside world does (how a flush, a rename, an
upload, an unlink, a deletion or a query turns out, when the process dies, in
what order a directory or a table is listed) is a parameter of the step it
affects, and every theorem holds for all of its values. MD5 is an injective function of the
contents. Each SQL statement is one atomic step.

Where the code and what is said about it differ, the model follows the code:

- README.md:19-21 says that replaying any archived shard lands on the same row.
  The upsert keeps the last prediction applied, so an early shard replayed alone
  moves the row back (`Upsert.ReplayingAnEarlyShardDiverges`).
  `Upsert.ReplayConvergesExactlyWhen` gives the exact condition, and replaying
  any suffix of the history, all of it included, meets it.
- sql/002_observations.sql:94-95 says the table can be derived again in full from
  the archive. `Rebuild.RebuildIsExactExactlyWhen` says when: the final shards
  must hold exactly the polls that reached the table, and the replay must match
  each against an index like the one it met. The process may die with a shard open,
  and then they do not (`Rebuild.AcknowledgedThenLost`).
- scripts/rollup.ts:18-20 asks for a run once the service day has settled, and calls
  early morning the right time. The job rolls up yesterday, once, at 03:15
  (deploy/vm/etc/systemd/system/bus-rollup.timer:5), while stops of yesterday up to
  35:00:00 may still be written. `Settling.LastRollupIsEnoughExactlyWhen` says when
  that is enough, and `Settling.LateStopIsMissed` shows a day for which it is not.
- src/archive/archive.ts:231 renames over an existing final file. Two clean runs
  that finalise the same feed and hour lose the first run's records
  (`ArchiveLoss.SecondCleanRunReplacesFirst`);
  `ArchiveLoss.NothingOnDiskIsLostExactlyWhen` says exactly which steps lose a
  stream.
- src/db/schedule.ts:104-106 binds a version and clears the trips before its
  calendar is read, and src/worker.ts:165 records the day before anything else.
  If a query fails in between, the cache serves the old version's dates under the
  new version's number until the next day (`Schedule.FailedLoadServesOldDates`,
  `Pipeline.Worker.OnDayRollover`); `Schedule.LookupIsFreshExactlyWhen` says which
  lookups are then still right.
- scripts/upload-archive.ts:44-46 says a shard is deleted only when the remote
  copy has its MD5. Hashes are kept by remote key, and the key ignores the middle
  directory (line 79), so of two paths with one key both are deleted against the
  hash of the last. `DriveSync.PruneIsSafeExactlyWhen` gives the exact condition,
  which the paths written by the archive meet.
- sql/003_rollups.sql:24-25 and src/db/partitions.ts:63-69 speak of a monthly
  guard. The guard asks only that each day with rows has some row in
  `rollup_daily`, which can be out of date (`DropGuard.GuardAdmitsStaleDays`);
  `DropGuard.GuardedDropIsRightExactlyWhen` says when a guarded drop is right
  whatever was written. A day without countable rows never has a rollup, so its
  partition is never dropped (`Rollups.GuardPassesExactlyWhen`).
- scripts/rollup.ts:15-16 says re-running a rollup is always safe. On a day whose
  countable rows have been dropped it erases the figures
  (`Rollups.RollUpIsFreshExactlyWhen`).
- src/util/time.ts:98-101 says the date of a spring-forward change has a service
  day of 23 hours. Measured from noon minus 12 hours it is the day before:
  `ServiceDay.ServiceDayLengthExactlyWhen` and `ServiceDay.ShiftIsOnNextDate`.
- src/gtfsrt/transform.ts:239-252 says an unmatched row can be matched later. The
  later poll fills that row in only if the feed's local date was the anchored one
  (`Pipeline.FillInExactlyWhen`); after midnight it adds a second row
  (`Pipeline.NightRowIsNotFilledIn`).
- scripts/export-site.ts:666-693 flags stops against a residual spread even where
  fewer than four were fitted; then the "residual" is the mean delay itself and
  every stop can be flagged (`Regression.BelowFourFlaggedExactlyWhen`,
  `Regression.ThreeLateStopsAreAllFlagged`).
- scripts/backup-database.ts:219-258 prunes whether or not the new dump was
  confirmed, so a day keeps a confirmed dump only if its newest one is
  (`Retention.RetainedDayIsConfirmedExactlyWhen`, with a failing day in
  `Retention.CorruptDumpTakesTheDay`). `Retention.RetainedBucketIsConfirmedExactlyWhen`
  says when a week or a month does.
- src/db/schedule.ts:160 treats every exception type but 1 as a removal; the SQL
  at sql/005_coverage.sql:100-109 knows 1 and 2
  (`Schedule.CalendarsAgreeExactlyWhen`; they differ in
  `Schedule.ForeignExceptionDisagrees`).

## Model

| member | source | states |
|---|---|---|
| Calendar.CivilOf | src/util/time.ts:91-92 | printing a day number gives a valid date whose day number it is |
| Calendar.CivilRoundTrip | src/util/time.ts:86-93 | parsing and printing a valid Gregorian date loses nothing, so a date string and a day number stand for each other |
| Calendar.YearStartIsDayFromYear | src/util/time.ts:86-93 | the day number of 1 January is DayFromYear of section 21.4.1.3 of ECMA-262, leap years of every kind included |
| Calendar.BeforeIsDayOrder | src/util/time.ts:86-93 | comparing year, then month, then day is comparing day numbers |
| Calendar.AddDays | src/util/time.ts:86-93 | shifting a date by whole days yields a valid date exactly that many days away, over month ends and leap years |
| Calendar.AddDaysAdditive | src/util/time.ts:86-93 | two shifts are one shift by the sum, and a shift undoes its opposite |
| Calendar.DateTextInjective | src/util/time.ts:61-71 | a date string names one day |
| Calendar.DateTextOrder | src/db/schedule.ts:137-145 | string order of four-digit-year dates is day order, so the calendar loop's `date <= end` is a comparison of days |
| Calendar.WeekStart | src/db/partitions.ts:17-22 | the result is a Monday, on or at most six days before the date |
| Calendar.WeekStartUnique | src/db/partitions.ts:17-22 | only one Monday has that property |
| Calendar.WeekKeyIsWeekStart | scripts/backup-database.ts:134-141 | the retention script's week and the partition code's week are the same week, for any two dates |
| Calendar.WeekKeyTextInjective | scripts/backup-database.ts:140 | the printed week key distinguishes exactly those weeks |
| Calendar.WeekKeyIsIsoWeek | scripts/backup-database.ts:135-139 | the key's number counts whole weeks from the week of 4 January of its year: section 4.1.4 of ISO 8601:2004 |
| ServiceDay.NoonReadsNoon | src/util/time.ts:103-117 | the two-step solve finds an instant whose wall clock reads noon on the date, and there is no other |
| ServiceDay.ServiceDayLength | src/util/time.ts:95-102 | consecutive service days start 23, 24 or 25 hours apart |
| ServiceDay.ServiceDaysApart | src/util/time.ts:103-117 | distinct service days start at least 23 hours apart, in date order |
| ServiceDay.ResolveServiceDate | src/util/time.ts:183-206 | the loop computes the earliest nearest running date of the three candidates |
| ServiceDay.NearestIsFirstNearest | src/util/time.ts:193-205 | what is returned runs, none of the candidates that run is nearer, ties go to the earlier, and nothing is returned exactly when none runs |
| ServiceDay.CandidateDates | src/util/time.ts:190-191 | a stop seen within 11.5 hours of its schedule has its service date among the three candidates, for scheduled times up to 35:00:00 and over clock changes |
| ServiceDay.ResolvesToScheduledDay | src/util/time.ts:183-206 | a trip seen strictly within 11.5 hours of schedule gets its own service date, whatever other dates it runs on and whatever the clocks do |
| ServiceDay.EarlyTieGoesToDayBefore | src/util/time.ts:199-203 | the bound is tight: exactly 11.5 hours early after a 23-hour day, the day before is chosen |
| ServiceDay.ServiceDayLengthExactlyWhen | src/util/time.ts:95-117 | a service day has 23 hours exactly when the clocks go forward between its noon and the next, and 25 exactly when they go back there |
| ServiceDay.ShiftIsOnNextDate | src/util/time.ts:95-112 | a change between a date's noon and the next falls on the next date, so it is the day before a change that is short or long |
| ServiceDay.SpringForwardIsRegular | src/util/time.ts:110-112 | a zone with one spring-forward change meets the hypotheses of all these results |
| Transform.DayTypeOf | src/util/time.ts:155-164 | Saturdays, counted in sevens from 3 January 1970, have code 1, Sundays code 2, all other days 0 |
| Transform.AnchorIsScheduledDay | src/gtfsrt/transform.ts:265-279 | if every stop that can anchor was seen near its schedule on one date, the trip is anchored to that date as soon as one such stop is reported, in any order |
| Transform.AnchoringIsStable | src/gtfsrt/transform.ts:253-285 | two polls of a trip, with any subsets of its stops in any order, agree on its service date, so primary keys do not move as passed stops drop out |
| Transform.RowFor | src/gtfsrt/transform.ts:155-193 | observed arrival, header time, route, stop, relationship and vehicle are the feed's; the five schedule columns are all set or all unset, set exactly when the trip was anchored to a schedule that lists the stop, and then the scheduled arrival is so many seconds after twelve hours before the date's noon, with the version and source of the static trip; the key is the resolved date, trip, stop and modified flag |
| Transform.RowOfScheduledTrip | src/gtfsrt/transform.ts:124-193 | a stop of a trip seen near its schedule is filed under the true date, matched exactly when the static trip lists it, and then with the scheduled arrival it was less than 11.5 hours away from, its wall-clock hour, and the day type of the service date |
| Transform.KeyTextInjective | src/gtfsrt/transform.ts:195-197 | the string key separates exactly the four-column keys, even when a trip id contains the separator |
| Transform.PreferenceIsLexicographic | src/gtfsrt/transform.ts:228-233 | for timestamps from 1970 and below 10^15 ms, precedence is: has a vehicle, then whole seconds of the timestamp, none counting as 0 |
| Transform.FirstAppearancesAreTheKeys | src/gtfsrt/transform.ts:116 | the map's insertion order lists each offered key once |
| Transform.Offer | src/gtfsrt/transform.ts:199-206 | offering one more row leaves the map holding the winner of each key seen so far, in order of first appearance, and reports a new key exactly when the order grew |
| Transform.TransformStops | src/gtfsrt/transform.ts:136-207 | one trip's stops extend the winner map by its entries, with each counter equal to the number of stops of its kind |
| Transform.TransformFeed | src/gtfsrt/transform.ts:86-213 | the rows are the winning entries, one a key in order of first appearance, and every counter is the number it names |
| Transform.EntryKeys | src/gtfsrt/transform.ts:136-153 | entries exist exactly for the keys of arrival-bearing stops not marked NO_DATA |
| Transform.MergeRows | src/gtfsrt/transform.ts:210 | merged rows have distinct keys, exactly those of the entries, and each row is one of the entries |
| Transform.TransformOutput | src/gtfsrt/transform.ts:105-109 | no two rows share a key, the keys are exactly those offered, schedule columns are all-or-nothing, and total stops = rows + duplicates + the three skips |
| Transform.RowsCarryTheFeed | src/gtfsrt/transform.ts:136-193 | every row holds what the feed reports of a stop that has an arrival and is not marked NO_DATA |
| Transform.CountersMean | src/gtfsrt/transform.ts:118-172 | the trip counters are the numbers of modified trips, of trips the schedule lacks and of trips it has but none of whose stops gives them a date; the stop counter is the number of offered rows of anchored trips that have no schedule |
| Transform.RowIsFromTheBestUpdate | src/gtfsrt/transform.ts:198-206 | each row is that of one trip update offering its key, which none offering it outranks (has a vehicle, then freshness) and which outranks every later one, with the columns that update reports of the stop |
| Upsert.ObservationTable.UpsertObservations | src/db/upsert.ts:89-172 | a batch is refused, changing nothing, exactly when it repeats a key; otherwise every row is applied and rowsChanged is the growth of the table |
| Upsert.StoredRow.DelaySeconds | sql/002_observations.sql:87-88 | no delay exactly without a schedule; otherwise the seconds from the scheduled arrival to the observed one, to the nearest second, half a second away from zero |
| Upsert.ApplyRowsConcat | src/db/upsert.ts:129-156 | applying two batches is applying their concatenation |
| Upsert.TableIsClosedForm | src/db/upsert.ts:99-156 | folding rows into an empty table leaves, for each key, first, last, least and greatest prediction, number of polls, number of adjacent changes, last seen, last match and last known vehicle of that key's history |
| Upsert.ClosedColumns | src/db/upsert.ts:129-156 | each column of that closed form in terms of the polls: the extremes bound every prediction and are attained, changes are the places where a prediction differs from the one before, vehicle and schedule are those of the last poll that had one |
| Upsert.StoredRowIsClosedForm | src/db/upsert.ts:129-156 | the same for any sequence of batches, refused ones leaving no trace |
| Upsert.IngestAll | src/db/upsert.ts:169-172 | rowsChanged summed over any sequence of batches is the number of rows in the table |
| Upsert.ScheduleColumnsShareOnePoll | src/db/upsert.ts:146-156 | although coalesced one by one, the five schedule columns of a stored row all come from one poll row, or are all unset |
| Upsert.MatchIsKept | src/db/upsert.ts:146-156 | once a row is matched no later poll unmatches it |
| Upsert.ReplayConvergesExactlyWhen | src/db/upsert.ts:129-156 | replaying rows changes nothing but the two counters if and only if they end with the recorded last prediction, relationship, match and vehicle |
| Upsert.SuffixEndsAsRecorded | src/db/upsert.ts:129-156 | every non-empty suffix of a history meets that condition |
| Upsert.ReplayingASuffixConverges | src/db/upsert.ts:129-156 | replaying any suffix of the applied batches leaves every row as it was, but for poll_count and change_count |
| Upsert.ReplayingAnEarlyShardDiverges | src/db/upsert.ts:130 | replaying an early batch alone does not: a concrete row moves back |
| Schedule.CalendarsAgreeExactlyWhen | sql/005_coverage.sql:86-110 | the loader's reading of a service date and the SQL's agree except exactly where an exception of a type other than 1 and 2 sits on a date the pattern includes |
| Schedule.ForeignExceptionDisagrees | src/db/schedule.ts:155-163 | an exception of type 3 on a running Monday: the loader removes the service, the SQL does not |
| Schedule.WeekdaysByName | src/db/schedule.ts:127-143 | indexing the weekday array by getUTCDay selects the column the SQL selects by the day's name |
| Schedule.ExpandRow | src/db/schedule.ts:136-146 | the loop collects exactly the dates of the row's range and weekdays |
| Schedule.LoadCalendar | src/db/schedule.ts:117-165 | the expansion holds a date for a service exactly when the calendar with its exceptions says so |
| Schedule.RowOrderIsImmaterial | src/db/schedule.ts:157-162 | the same rows in another order expand to the same dates |
| Schedule.FreshJoinIsUnique | src/db/schedule.ts:183-230 | the join of a trip on one feed version has one answer |
| Schedule.Latest | src/db/schedule.ts:65-83 | the query returns an eligible version that none loaded later, and nothing only when none is eligible |
| Schedule.BindingIsNewestValid | src/db/schedule.ts:64-84 | in the versions' fields: a complete version valid on the date that no such version was loaded after; with none such, the same among all that are complete; none only if none is complete |
| Schedule.ScheduleCache.Initialise | src/db/schedule.ts:64-115 | binds the latest version valid on the date, failing that the latest complete one, and nothing only when none is complete; the trip cache is emptied with every binding; if the calendar cannot be read, the version stays bound over the dates expanded before, and if the versions cannot, nothing changes |
| Schedule.ScheduleCache.IndexFor | src/db/schedule.ts:172-181 | every requested trip's lookup, hit, miss or cached negative, is what the cache holds for it; exactly the requested trips are added, as the bound version's trips with the dates held; refused, changing nothing, only when a trip must be loaded and a query fails |
| Schedule.ScheduleCache.LoadTrips | src/db/schedule.ts:183-230 | exactly the given trips are cached, each as the join of the bound version with the dates held |
| Schedule.ScheduleCache.ClearTrips | src/db/schedule.ts:236-238 | the trip cache is empty and the binding unchanged |
| Schedule.StopsByTrip | src/db/schedule.ts:203-211 | each wanted trip with stop times gets exactly its own sequence-to-arrival pairs |
| Schedule.JoinIsFreshExactlyWhen | src/db/schedule.ts:217-229 | a stored trip is the fresh join if and only if the version lacks it or the calendar that was expanded gives its service the version's own dates |
| Schedule.LookupIsFreshExactlyWhen | src/db/schedule.ts:64-230 | after any calls with queries failing anywhere, a cached trip is the fresh join under exactly that condition, and always when the last initialise that chose a version read its calendar |
| Schedule.FailedLoadServesOldDates | src/db/schedule.ts:104-106 | two versions and a calendar query that fails: the trip looked up next has the old version's dates under the new version's number |
| Pipeline.Worker.PollTripUpdates | src/worker.ts:177-237 | the payload is archived first; the poll reaches the table if and only if that write was acknowledged, the payload decodes, the rollover runs to its end, the trips are cached or the queries succeed, and the upsert does; then the table, which never refuses them, gains the rows of the feed matched against the bound version and the dates held, and the running total their growth; otherwise the table is left alone; a poll of the same day never rebinds the cache |
| Pipeline.Worker.OnDayRollover | src/worker.ts:162-175 | on a new day the day is recorded whatever follows; exactly if all seven weeks can be partitioned the cache takes the step of an initialise, and otherwise it is left as it was; the rollover succeeds if and only if both do; the same day changes nothing |
| Pipeline.Worker.FindSchedule | src/worker.ts:203-205 | the index serves each trip of the feed as the bound version has it with the dates held; it is refused exactly when the rollover fails or a trip is not cached and a query fails |
| Pipeline.Worker.StoreFeed | src/worker.ts:203-212 | what follows the decoding leaves the table alone or applies exactly the rows of the transform |
| Pipeline.Worker.Record | src/worker.ts:188-198 | a write by any loop is acknowledged or not as the archive step says, keeps every earlier acknowledgement, and touches neither table nor cache |
| Pipeline.PollsAreAccepted | src/gtfsrt/transform.ts:105-109 | every batch the transform makes is accepted, and none of its rows is half matched |
| Pipeline.PolledTableIsClosedForm | src/worker.ts:205-212 | after any sequence of polls the table holds exactly the keys some poll offered, each with the closed form of its own rows |
| Pipeline.FillInExactlyWhen | src/gtfsrt/transform.ts:239-252 | a row filed unanchored is filled in by a later anchored poll of its stop, whatever unmatched polls of it and polls of other stops come between, if and only if the fallback date is the anchored date; otherwise the match is a second row and the first stays unmatched |
| Pipeline.NightRowIsNotFilledIn | src/gtfsrt/transform.ts:259-262 | a trip due at 24:30, polled at half past midnight before and after the schedule knows it: filed under two dates, and the first row stays unmatched |
| Rebuild.TransformedRows | src/gtfsrt/transform.ts:86-213 | whatever the transform returns is the sequence of winning rows of its input |
| Rebuild.MatchAlikeExactlyWhen | src/gtfsrt/transform.ts:253-285 | two schedule indexes give every feed the same rows if and only if every trip has the same schedule in both, counting one with no dates or no stops as none |
| Rebuild.RebuildIsExactExactlyWhen | sql/002_observations.sql:94-95 | replaying a feed's final shards, on disk or stored, hour by hour rebuilds the polled table, whatever the records hold, if and only if the shards hold exactly the records whose upsert succeeded and each was matched against an index like the replay's |
| Rebuild.WorkerTableIsLive | src/worker.ts:188-212 | the table that any processes' polls leave is the polled table of the records of the feed, with those whose poll was written as the upserted ones; each of these was acknowledged by the archive |
| Rebuild.AcknowledgedThenLost | src/archive/archive.ts:208-238 | a process that dies after its first poll: the record was acknowledged and upserted, no final shard holds it, and the replay does not give the table back |
| Archive.Step | src/archive/archive.ts:119-265 | every step, whatever fails in it (directory, move aside, flush, rename, upload, unlink), keeps each file a single stream, each open shard's file the prefix of what was acknowledged, and each final file complete |
| Archive.Run | src/archive/archive.ts:119-265 | the same over any run with crashes and restarts |
| Archive.FinalShardsAreWhole | src/archive/archive.ts:208-238 | every final-named file, local or uploaded, is one complete member holding in order exactly the records acknowledged to its stream, all of its feed and hour; no file ever holds two streams |
| Archive.ClosedAreGone | src/archive/archive.ts:261-265 | closing in turn closes exactly the shards named, whatever each outcome |
| ArchiveLoss.RenameLosesExactlyTheReplaced | src/archive/archive.ts:231 | of the streams on disk, a rename loses exactly the one whose file had the new name |
| ArchiveLoss.CloseKeepsExactlyWhen | src/archive/archive.ts:208-259 | closing a shard loses a stream if and only if every copy of it is the file under the shard's final name, or its stored object when the shard is uploaded; a stream lost stays lost |
| ArchiveLoss.OpenKeepsExactlyWhen | src/archive/archive.ts:178-189 | opening a stream loses another if and only if its only copy is under the name an abandoned file is moved to |
| ArchiveLoss.NothingOnDiskIsLostExactlyWhen | src/archive/archive.ts:119-265 | records that reached disk are kept through any run of failures and crashes if and only if no step of it replaces their last copy |
| ArchiveLoss.NothingOnDiskIsLost | src/archive/archive.ts:208-259 | in particular when no shard is finalised or stored over one of its name |
| ArchiveHours.RunKeepsOneStream | src/archive/archive.ts:144-155 | with a clock that does not run back, a run opens at most one stream for a feed and hour |
| ArchiveHours.FinalShardIsARunsHour | src/archive/archive.ts:144-203 | then a final shard, on disk or stored, holds everything one run acknowledged for its feed and hour |
| ArchiveHours.ReplayIsTheRecoveredPolls | src/archive/archive.ts:92-94 | replaying a feed's final shards hour by hour, each from disk or else from the store, gives exactly the records some final shard holds, in the order they were polled |
| ArchiveOutcome.FinalisingLeaves | src/archive/archive.ts:208-259 | a finalised shard leaves all that was acknowledged to it under its final name unless unlinked, and in the store if uploaded; its old name is gone and no other file, object or shard changes |
| ArchiveOutcome.FailedClosingLeaves | src/archive/archive.ts:208-237 | a shard whose rename failed keeps all of it under the name it had; one whose flush failed keeps the first so much of it there, unfinished |
| ArchiveOutcome.RotationLeaves | src/archive/archive.ts:144-206 | a write of an open hour opens nothing; otherwise the old shard is closed and a new stream begins in an empty file, an abandoned one moved aside, or the feed is left without a shard exactly when the directory or that move fails |
| ArchiveOutcome.WriteIsLast | src/archive/archive.ts:119-142 | an acknowledged record is the last of its feed's open stream, and nothing else changes |
| ArchiveOutcome.FlowLeaves | src/archive/archive.ts:190-197 | the pipe moves the first so many buffered records to the end of the file |
| ArchiveOutcome.CleanRunIsReplayed | src/archive/archive.ts:119-265 | whatever was on disk before, a run in which nothing fails, with a clock that does not run back, that ends with every shard closed: every record it was given is replayed |
| ArchiveLoss.SecondCleanRunReplacesFirst | src/archive/archive.ts:231 | two clean runs in one hour leave only the second's records |
| HourlyArchive.HourlyNdjsonArchive.constructor | src/archive/archive.ts:104-117 | a new process starts with no open shard over whatever is on disk |
| HourlyArchive.HourlyNdjsonArchive.ShardFor | src/archive/archive.ts:144-206 | rotation in place does to disk, map and history what the specified step does, and leaves the feed's shard open for that hour, or none if opening it failed |
| HourlyArchive.HourlyNdjsonArchive.Write | src/archive/archive.ts:119-142 | a write in place is the specified step |
| HourlyArchive.HourlyNdjsonArchive.CloseShard | src/archive/archive.ts:208-259 | closing in place is the specified step for each way it can fail |
| HourlyArchive.HourlyNdjsonArchive.CloseAll | src/archive/archive.ts:261-265 | every open shard is visited, each as the specified step, and none stays open |
| DriveKeys.JoinOfSplit | scripts/upload-archive.ts:77 | splitting a path loses nothing |
| DriveKeys.SameKeyExactlyWhen | scripts/upload-archive.ts:76-86 | two recognised paths get one key exactly when first and last components agree |
| DriveKeys.InvertibleExactlyWhen | scripts/upload-archive.ts:76-86 | a path can be read back from its key exactly when its directory is the date in its name |
| DriveKeys.EmittedIsRecognised | src/archive/archive.ts:156-198 | every path the archive writes is recognised, lands in feed/YYYY/MM/DD/HH, and can be read back |
| DriveKeys.EmittedKeysInjective | src/archive/archive.ts:156-198 | no two of them share a key |
| DriveKeys.UnfinishedIsNotRecognised | scripts/upload-archive.ts:81-82 | a path the archive writes with anything after its final name, as .partial and moved-aside files have, is not recognised |
| DriveKeys.KeysInHourOrder | scripts/upload-archive.ts:61-75 | for one feed and extension, both path order and key order are hour order |
| DriveSync.EmittedIsShard | scripts/upload-archive.ts:157-163 | the scan includes every shard the archive finalises |
| DriveSync.Uploader.HashAll | scripts/upload-archive.ts:262-263 | the hash kept for a key is that of the last shard with it |
| DriveSync.Uploader.PlanUploads | scripts/upload-archive.ts:265-273 | the plan holds exactly the shards whose size or hash the listing does not confirm |
| DriveSync.Uploader.Upload | scripts/upload-archive.ts:292-301 | copies go out in order and the first failure ends the run with what it left behind |
| DriveSync.Uploader.Confirm | scripts/upload-archive.ts:305-331 | a key is confirmed if and only if a shard of that key matches size and kept hash on the new listing |
| DriveSync.Uploader.Prune | scripts/upload-archive.ts:349-372 | aged shards are unlinked in order, only under a confirmed key, until an unlink fails |
| DriveSync.Uploader.Run | scripts/upload-archive.ts:249-374 | a whole run does to both disks what the specified run does; a dry run changes neither; what leaves the disk was past retention, and nothing leaves unless every copy was made; if nothing fails, every shard past retention leaves whose key holds what was hashed for it |
| DriveSync.ConfirmedIsRemote | scripts/upload-archive.ts:309-331 | when shards of a key share contents, a key is confirmed exactly when the remote file holds those contents and reports a hash |
| DriveSync.PlanIsComplement | scripts/upload-archive.ts:265-331 | on one listing the upload plan is exactly the complement of the confirmed shards |
| DriveSync.UploadsOnlyAdd | scripts/upload-archive.ts:285-301 | uploads never remove a remote key and touch only planned keys |
| DriveSync.FailedCopyEndsUploads | scripts/upload-archive.ts:292-301 | a copy that fails leaves every key not yet planned before it as it was |
| DriveSync.FailedUnlinkEndsPruning | scripts/upload-archive.ts:369 | an unlink that fails leaves every path not yet unlinked on the disk |
| DriveSync.CleanUploadsConfirmAll | scripts/upload-archive.ts:252-331 | an error-free run confirms every recognised shard |
| DriveSync.NextPlanIsEmpty | scripts/upload-archive.ts:252-273 | and leaves the next run nothing to upload |
| DriveSync.RunIsSafe | scripts/upload-archive.ts:349-372 | whatever fails, a run keeps every remote key, leaves foreign keys alone, and removes from disk only shards whose own bytes are remote |
| DriveSync.CleanRunPrunesExactlyTheOld | scripts/upload-archive.ts:349-372 | with one content a key, a run in which nothing fails takes off the disk exactly the scanned shards past the cutoff |
| DriveSync.PruneIsSafeExactlyWhen | scripts/upload-archive.ts:43-49 | that nothing pruned is lost, for every remote state and outcome, holds if and only if shards with one key have one content |
| DriveSync.EveryShardIsRecoverable | scripts/upload-archive.ts:19-49 | over any sequence of first finalisations and runs, every shard ever finalised is whole on disk or under its key remotely, and remote keys never shrink |
| DriveSync.FirstContentsSurviveExactlyWhen | scripts/upload-archive.ts:285-301 | a shard finalised again keeps its first contents only if they were remote already, and after the next error-free run only if both contents are the same |
| DriveSync.ErrorFreeRunIsComplete | scripts/upload-archive.ts:249-374 | one error-free run leaves the remote holding every shard ever finalised, those pruned long before included |
| Retention.ParseDumpName | scripts/backup-database.ts:119-125 | the name a run gives its dump reads back as the minute it was made |
| Retention.ParsedExactlyWhen | scripts/backup-database.ts:119-125 | a name of a dump's shape is a date exactly when its month, day and minute are in range and its time is not past midnight |
| Retention.ParsedIsItsName | scripts/backup-database.ts:119-125 | a name whose fields are a calendar date and a time of day is the name of the minute it reads as |
| Retention.SortIsCanonical | scripts/backup-database.ts:127 | dumps of distinct times sort to one order, however listed |
| Retention.WalkMeaning | scripts/backup-database.ts:143-159 | a generation keeps a dump exactly when no newer dump shares its bucket and fewer distinct newer buckets than its allowance exist |
| Retention.KeysAreDayWeekAndMonth | scripts/backup-database.ts:132-141 | two dumps share a daily, weekly or monthly key exactly when they share the day, the week from Monday, or the year and month |
| Retention.KeysAreInTheName | scripts/backup-database.ts:132-133 | a dump's daily and monthly keys are the first ten and seven characters of the date in its name |
| Retention.Generations | scripts/backup-database.ts:129-159 | the single loop over three generations retains the union of what each keeps |
| Retention.SelectForRetention | scripts/backup-database.ts:115-165 | fails exactly on a name whose fields are no date; otherwise splits the parsed dumps, newest first, into retained and removable |
| Retention.ListedExactlyOnce | scripts/backup-database.ts:161-164 | a listed file that parses is in exactly one list, any other in neither |
| Retention.NewestIsRetained | scripts/backup-database.ts:251-256 | the newest dump is retained, so the refusal to delete it never acts |
| Retention.RetainedIsBounded | scripts/backup-database.ts:143-159 | at most daily + weekly + monthly dumps are retained |
| Retention.RemoteFolder.Prune | scripts/backup-database.ts:238-258 | fails exactly on a name whose fields are no date, and then deletes nothing; otherwise the folder loses exactly the removal list without the dump just made, newest first, up to the first deletion that fails, and success means the whole list went |
| Retention.VictimsAreTheUnretained | scripts/backup-database.ts:247-258 | that list is the listed dumps that are neither retained nor the one just made |
| Retention.RetainedWithNewer | scripts/backup-database.ts:143-159 | a newer dump never brings an older one back into the retained set |
| Retention.RetainedIgnoresDeleted | scripts/backup-database.ts:143-159 | deleting removable dumps does not change what is retained |
| Retention.NothingRetainedIsDeleted | scripts/backup-database.ts:238-258 | over any nights, with each pruning cut short anywhere and some dumps missing from the listing, nothing that one pruning of all history would keep is gone, and the nightly selection is that of all history |
| Retention.NightlyPruningIsOnePruning | scripts/backup-database.ts:238-258 | after a complete night the folder is exactly what one pruning of every dump ever made would leave |
| Retention.PruningIsIdempotent | scripts/backup-database.ts:238-258 | pruning again changes nothing |
| Retention.ListingOrderIsImmaterial | scripts/backup-database.ts:235-239 | any listing order, and other files in the folder, give the same selection |
| Retention.WalkKeepsConfirmedExactlyWhen | scripts/backup-database.ts:143-159 | what a generation keeps of a bucket holds a confirmed dump if and only if the bucket's newest dump is confirmed |
| Retention.RetainedDayIsConfirmedExactlyWhen | scripts/backup-database.ts:219-258 | of all three generations together, a retained day has a confirmed dump if and only if its newest one is confirmed |
| Retention.RetainedExactlyWhen | scripts/backup-database.ts:143-159 | of all three generations together, a dump is retained if and only if it is the newest of its day, of its week from Monday or of its calendar month, with fewer newer ones of these than that allowance |
| Retention.RetainedBucketIsConfirmedExactlyWhen | scripts/backup-database.ts:219-258 | a day, week or month is left with a confirmed dump if and only if one of its confirmed dumps is such a newest one |
| Retention.OlderWeekIsConfirmedExactlyWhen | scripts/backup-database.ts:219-258 | a retained week in which the daily and monthly generations keep nothing is left with a confirmed dump if and only if its newest was confirmed |
| Retention.CorruptDumpTakesTheDay | scripts/backup-database.ts:219-258 | two dumps of one day, the earlier confirmed: the later is kept and the day has no confirmed dump |
| Rollups.MergeIsCommutativeMonoid | sql/004_stats.sql:104-111 | merging daily columns is associative and commutative, so grouping order is immaterial |
| Rollups.SummaryOfConcat | sql/003_rollups.sql:143-152 | summarising rows is a homomorphism into that merge, however the rows are cut |
| Rollups.VarianceIsNonNegative | sql/004_stats.sql:113-120 | n times the sum of squares is at least the square of the sum, so clamping the variance at zero changes nothing |
| Rollups.AggregateIsInOrder | sql/003_rollups.sql:143-152 | late-300 <= late-240 <= n, early and late do not overlap, and the extremes are attained |
| Rollups.MeanIsBounded | sql/004_stats.sql:112 | any bounds on the delays bound their mean |
| Rollups.SumsFit64Bits | sql/003_rollups.sql:43-48 | for countable delays and a count below 2^31 both sums fit a bigint |
| Rollups.DelaysAreCountable | sql/003_rollups.sql:109-119 | every aggregated delay is under two hours in size |
| Rollups.DirectInMilliseconds | sql/003_rollups.sql:109-160 | a cell's figures in terms of stored rows: they count the exactly scheduled, unskipped rows of its stop, route, hour and day type less than 7199.5 s early or late; four minutes late begins at 239.5 s, five at 299.5 s, one early at 59.5 s; the sum and the extremes are right to half a second a row |
| Rollups.GroupByTotals | sql/003_rollups.sql:159-160 | grouping yields one row a cell, the merge of that cell's rows |
| Rollups.RolledUpIsFresh | sql/003_rollups.sql:130-160 | a rebuilt day's rows are the aggregates of its raw rows, other days' are untouched, and the primary key holds |
| Rollups.Warehouse.BuildRollupDaily | sql/003_rollups.sql:124-165 | in place: every row of the day has the figures of that day's stored rows in milliseconds, other days are untouched, and the number of the day's rows is returned |
| Rollups.Warehouse.BuildStopRouteHourStats | sql/004_stats.sql:88-160 | the serving table is replaced by the window's groups; when the windowed, unflagged days are fresh, each cell is the direct aggregate and has its figures in milliseconds |
| Rollups.WindowDates | sql/004_stats.sql:93-137 | the days summed are those at most the window's days before today, or all from 1900 on without a window, and not those of a known gap |
| Rollups.TwoStagesAreOne | sql/004_stats.sql:98-138 | if each windowed, unflagged day is fresh, every serving cell is the aggregate of the window's raw countable rows, and cells are unique |
| Rollups.StatsAreDirectExactlyWhen | sql/004_stats.sql:129-137 | whatever days are flagged, serving cells are the direct aggregates if and only if every day from the cutoff on is fresh |
| Rollups.ServiceDaysAreObserved | sql/004_stats.sql:125-127 | on fresh days, a cell's service days are the days it was observed on |
| Rollups.EvictionKeepsHistory | src/db/partitions.ts:117 | dropping raw rows does not change the aggregate over dropped and remaining rows together |
| Rollups.RollUpIsFreshExactlyWhen | sql/003_rollups.sql:130-160 | rebuilding a day reflects its whole history if and only if none of its countable rows has been dropped |
| Rollups.ServingCellsAreDirect | sql/004_stats.sql:98-138 | after any sequence of writes, rebuilds and evictions, if each windowed day was rebuilt after its last write and before its eviction, every serving cell is the aggregate of all rows, evicted ones included |
| Rollups.GuardPassesExactlyWhen | src/db/partitions.ts:95-107 | a freshly rebuilt day satisfies the drop guard if and only if it has a countable row |
| DropGuard.GuardIsMayDrop | src/db/partitions.ts:93-107 | the guard on a day's rows used below is the guard on a partition's rows |
| DropGuard.RewriteIsFreshExactlyWhen | sql/003_rollups.sql:130-160 | a settled day written again is still fresh if and only if the new rows aggregate as the old ones did |
| DropGuard.DropIsRightExactlyWhen | src/db/partitions.ts:117 | a dropped day's figures are right if and only if the rows it was last written with aggregate as those it was last rolled up from |
| DropGuard.GuardedDropIsRightExactlyWhen | src/db/partitions.ts:95-117 | whatever a partition's days were written with, a drop the guard allows leaves all their figures right if and only if, for each day, every write is followed by a rollup or no rollup ever followed a write |
| DropGuard.GuardAdmitsStaleDays | src/db/partitions.ts:102-107 | a day written again after its rollup passes the guard, and once dropped its figures stay those of the earlier rows |
| Settling.CanWriteExactlyWhen | src/gtfsrt/transform.ts:253-285 | for some schedule a feed makes a row of a date if and only if a trip it reports has an arrival whose local date is within one of it, or the date is the feed's own |
| Settling.PollWritesDate | src/worker.ts:205-207 | a poll writes a date exactly when some trip it reports resolves to it |
| Settling.DayIsPendingExactlyWhen | scripts/rollup.ts:33-58 | after any polls, nightly and named rollups and drops of other days, a day is pending exactly when some poll wrote it and no later job rolled it up, and has a rollup exactly when some job rolled it up after a poll wrote it |
| Settling.LastRollupIsEnoughExactlyWhen | deploy/vm/etc/systemd/system/bus-rollup.timer:5 | the last rollup of a day leaves it pending exactly when a later poll writes it, and its figures outlive its rows, whatever was written, if and only if none does or none did before |
| Settling.QuietDayIsSettled | scripts/rollup.ts:18-20 | so they do once no feed polled after the rollup carries the day's date or an arrival within a day of it |
| Settling.LateStopIsMissed | deploy/vm/etc/systemd/system/bus-rollup.timer:5 | a trip due at 27:30 polled before and after the 03:15 rollup: the day is pending, and a guarded drop can keep figures that miss the later poll |
| Partitions.NameInjective | src/db/partitions.ts:24-26 | a partition's name determines its week |
| Partitions.NameIsItsMonday | src/db/partitions.ts:24-26 | a partition's name is the table's followed by the eight digits of its Monday |
| Partitions.OnePartitionPerDate | src/db/partitions.ts:17-26 | the partition holding a date is the one named for its week |
| Partitions.PartitionsAreDisjoint | src/db/partitions.ts:35-56 | no two partitions overlap |
| Partitions.PartitionedTable.EnsurePartitions | src/db/partitions.ts:28-61 | existing partitions are kept, exactly the visited weeks that were missing are created, and the call stops at the first week whose rows already sit in the default partition or whose statement fails |
| Partitions.EnsuredExactlyWhen | src/db/partitions.ts:33-58 | the call succeeds if and only if its statements do for every visited week and no missing week has rows in the default partition |
| Partitions.EnsuredDatesAreCovered | src/db/partitions.ts:33-38 | every date from the first Monday to the last Sunday visited has exactly one partition |
| Partitions.PartitionedTable.DropExpiredPartitions | src/db/partitions.ts:70-122 | a partition goes exactly when its last day is before the cutoff and each of its days with rows is in rollup_daily; exactly its rows go with it, in whatever order partitions are visited |
| Partitions.OnlyRolledUpDaysAreLost | src/db/partitions.ts:70-122 | over any sequence of polls, rebuilds, creations and drops, partitions stay disjoint weeks, and a row is lost only to a drop it was past retention for, on a day in rollup_daily at that moment |
| Shutdown.StartIsValid | src/worker.ts:331-345 | any number of loops may start: none asleep, no waker waiting |
| Shutdown.StepKeepsInv | src/worker.ts:35-70 | each turn of a loop, timer or signal keeps waker set and sleeping loops in step |
| Shutdown.AsleepIffWaiting | src/worker.ts:58-69 | at every moment of any run, for any number of loops, a loop is asleep exactly when its waker is in the set |
| Shutdown.LoopsTakeTurns | src/worker.ts:262-311 | until the signal no loop returns, and each has ended a poll, finished a record and woken as often as it passed its guard, but for the turn it is in |
| Shutdown.ArchiveSeesTheWrites | src/worker.ts:331-355 | the archive after any run of the loops is that of their writes in the order they ended, then the closing |
| Shutdown.NoSleepNoPollAfterSignal | src/worker.ts:51-59 | after the signal no loop is or falls asleep and none starts a poll |
| Shutdown.StoppingTurn | src/worker.ts:269-311 | while stopping every turn but a repeated signal brings the end nearer |
| Shutdown.NeverStuck | src/worker.ts:354-355 | until the archive is closed some turn is possible |
| Shutdown.TurnsBound | src/worker.ts:269-311 | at most three turns a loop and one for main remain |
| Shutdown.CloseLeavesNoneOpen | src/worker.ts:355 | closing the archive, which visits each open shard, leaves none open whatever each close comes to |
| Shutdown.ShutdownCompletes | src/worker.ts:354-355 | a run that has taken its bounded number of turns has every loop done and the archive closed with no shard open |
| Shutdown.ShutdownSignal.SleepLoop | src/worker.ts:58-69 | sleeping when stopping returns at once; otherwise exactly this loop's waker is added |
| Shutdown.ShutdownSignal.WakeLoop | src/worker.ts:61-65 | waking removes exactly that waker |
| Shutdown.ShutdownSignal.SignalAll | src/worker.ts:51-55 | signalling wakes every waiter and empties the set |
| Wilson.BoundsInOrder | scripts/export-site.ts:129-136 | 0 <= low <= p <= high <= 1, so both clamps are redundant |
| Wilson.ScoreTest | scripts/export-site.ts:129-136 | the ends are the two roots of the score equation, and the interval is exactly what the test does not reject |
| Wilson.ProgramsAgree | site/public/app.js:750-760 | the client's rearranged formula and the exporter's give the same interval |
| Wilson.WilsonIsScoreInterval | scripts/export-site.ts:127-137 | the exported interval lies in 0..100, holds the percentage, and is exactly the proportions x with (p - x)^2 <= z^2 x (1 - x) / n |
| Wilson.IntervalHoldsExactlyWhen | scripts/export-site.ts:127-137 | for any number of observations, none included, the interval holds a proportion exactly when the count is within z standard deviations of what it makes of the total |
| Wilson.WilsonNarrows | scripts/export-site.ts:119-126 | at the same proportion more observations give a strictly narrower interval |
| Regression.ResidualsSumToZero | scripts/export-site.ts:656-671 | residuals of four or more fitted stops sum to zero |
| Regression.ResidualsOrthogonal | scripts/export-site.ts:656-665 | residuals are orthogonal to position, also when all positions are equal |
| Regression.DenIsSpread | scripts/export-site.ts:661-663 | the denominator vanishes only when every position is the mean, and then the numerator does too |
| Regression.FitIsOptimal | scripts/export-site.ts:656-665 | no line has a smaller squared error than the fitted one |
| Regression.SpreadIsSquaredError | scripts/export-site.ts:670-675 | the residual SD squared, times n - 1, is the squared error of the fit |
| Regression.FewAreFlagged | scripts/export-site.ts:656-693 | of four or more fitted stops n, if k are flagged then 9 k n < 4 (n - 1) (n - k), so k is below 4 n / 13 |
| Regression.BelowFourFlaggedExactlyWhen | scripts/export-site.ts:655-693 | of one to three stops, one is flagged if and only if its mean exceeds 1.5 SD of a spread that is not zero, and all are if and only if the least mean does |
| Regression.ThreeLateStopsAreAllFlagged | scripts/export-site.ts:655-693 | three stops a second apart on a late route are all flagged: the bound above needs its four stops |

## Left out

- Protobuf decoding, HTTP fetch and back-off, healthcheck pings, live-status pushes, CLI flags, configuration and logging: wrappers, or single-loop facts.
- The bytes of gzip and brotli: a stream is a list of records and a flag saying whether its end was written. A compressor that reports a write error is only modelled as a write that was never acknowledged.
- The failure of `stat` at src/archive/archive.ts:240, which would reject `close` after the rename.
- An error event of the file opened at src/archive/archive.ts:190, which arrives after the write that opened it: it shows as a flush that fails.
- The second object store's client (src/archive/r2.ts) and the download of a sample at scripts/upload-archive.ts:387: an upload succeeds or fails as a whole in `Archive`, and may leave any bytes in `DriveSync`.
- Two remote files of one name, which the remote can hold and rclone lists: the remote is a map.
- Upper-case hexadecimal hashes, folded by the script before it compares: a hash is compared as it is.
- The Intl API and the time zone database; years outside 0 to 9999; `Date.UTC` reading years 0 to 99 as 1900 to 1999.
- V8 accepting the 29th to 31st of a shorter month in an ISO string: `Retention.Parse` takes such a day as one of the next month, and any other impossible field as an invalid date.
- Local cleanup after a backup (scripts/backup-database.ts:262-280), pg_dump, and verification of a restored dump.
- Concurrent calls on the schedule cache: polls of the trip feed are sequential (src/worker.ts:331-345), and the cache is modelled for sequential use. A lookup made while `initialise` awaits the calendar would mix two feed versions.
- The index returned by `indexFor` is a closure over the live map; the model returns its contents at that moment, which is when the transform reads it.
- Feed versions are immutable once loaded: the tables of a version never change while it is bound.
- PostgreSQL concurrency, locks and isolation: each statement is one step. Overflow of the smallint counters is not modelled.
- Relations other than partitions that have a partition's name, and partitions created by hand with other bounds.
- p50 and p90, their weighted approximations, the `real` columns derived from sums, and `toFixed` rounding: sums, counts and extremes are exact.
- rollup_monthly, coverage percentages and the dataset_summary counts: further groupings of the kind already proved.
- The left join at sql/005_coverage.sql:121-124, which can count a pair twice when modified and unmodified rows both exist; only the calendar predicate of that file is modelled.
- Square roots in floating point: roots are parameters that satisfy their equation, and no rounding is modelled.
- The static GTFS loader, the R2 and site publishing scripts, the web client except its interval formula, and the reporting scripts.
- Transform.TransformFeed: the decoder's fields not used by the transform, and the `tripUpdates` of the archive-only feeds, are not part of the input.
- ArchiveHours.FinalShardIsARunsHour: needs a clock that does not run backwards within a run, which the code does not check.
- DropGuard.GuardedDropIsRightExactlyWhen: speaks of the first drop of a day; rows written to a day after it was dropped are in `Rollups.RollUpIsFreshExactlyWhen`.
- Rebuild.RebuildIsExactExactlyWhen: replays final shards only, one compression an hour; records that a `.partial` or a moved-aside file still holds are left to be recovered by hand. It asks that the fetch times of a feed's polls increase, which the code does not check: with a clock set back, the order of the shards is not the order of the polls.
- Rebuild.WorkerTableIsLive: asks the same of the clock, and that the table was empty before the first poll.
- Partitions.PartitionedTable.EnsurePartitions: asks that all visited weeks have four-digit years, as the date strings do.
