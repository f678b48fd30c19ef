// Until when a service day can be written, and which rollups come too early for
// it: the polls of src/worker.ts against the nightly job of scripts/rollup.ts.
module Settling {
  import opened Wrappers
  import opened ServiceDay
  import opened Transform
  import opened Upsert
  import opened Pipeline
  import opened Rollups
  import opened DropGuard

  // -- The dates a poll can write -----------------------------------------------------------

  ghost predicate WritesDate(rows: seq<ObservationRow>, date: int) {
    exists row | row in rows :: row.serviceDate == date
  }

  predicate Reports(trip: TripUpdate) {
    exists stop | stop in trip.stops :: Emits(stop)
  }

  // Some stop of the feed makes a row of that date.
  ghost predicate ReportsDate(tz: int -> int, feed: Feed, schedule: ScheduleIndex, date: int) {
    exists trip | trip in feed.tripUpdates ::
      Reports(trip) && Match(tz, feed, schedule, trip).resolution.serviceDate == date
  }

  lemma RowHasKey(rows: seq<ObservationRow>, row: ObservationRow)
    requires row in rows
    ensures HasKey(rows, KeyOf(row)) && KeyOf(row).serviceDate == row.serviceDate
  {
  }

  lemma KeyHasRow(rows: seq<ObservationRow>, key: RowKey)
    requires HasKey(rows, key)
    ensures WritesDate(rows, key.serviceDate)
  {
  }

  lemma OfferedReports(tz: int -> int, feed: Feed, schedule: ScheduleIndex, key: RowKey)
    requires Offered(tz, feed, schedule, feed.tripUpdates, key)
    ensures ReportsDate(tz, feed, schedule, key.serviceDate)
  {
    hide Match, Emits;
    var t, s :| 0 <= t < |feed.tripUpdates| && 0 <= s < |feed.tripUpdates[t].stops|
      && Emits(feed.tripUpdates[t].stops[s])
      && key == OfferedKey(Match(tz, feed, schedule, feed.tripUpdates[t]), feed.tripUpdates[t].stops[s]);
    var trip := feed.tripUpdates[t];
    assert trip.stops[s] in trip.stops && trip in feed.tripUpdates;
  }

  lemma ReportOffers(tz: int -> int, feed: Feed, schedule: ScheduleIndex, date: int) returns (key: RowKey)
    requires ReportsDate(tz, feed, schedule, date)
    ensures key.serviceDate == date && Offered(tz, feed, schedule, feed.tripUpdates, key)
  {
    hide Match, Emits;
    var trip :| trip in feed.tripUpdates && Reports(trip)
      && Match(tz, feed, schedule, trip).resolution.serviceDate == date;
    var stop :| stop in trip.stops && Emits(stop);
    var t :| 0 <= t < |feed.tripUpdates| && feed.tripUpdates[t] == trip;
    var s :| 0 <= s < |trip.stops| && trip.stops[s] == stop;
    key := OfferedKey(Match(tz, feed, schedule, trip), stop);
  }

  lemma PollWritesDate(tz: int -> int, poll: Poll, date: int)
    requires IsPoll(tz, poll)
    ensures WritesDate(poll.rows, date) <==> ReportsDate(tz, poll.feed, poll.schedule, date)
  {
    hide Match, IsTransform, Emits, Offered, KeyOf, HasKey;
    TransformOutput(tz, poll.feed, poll.schedule, poll.rows, poll.stats);
    if row :| row in poll.rows && row.serviceDate == date {
      RowHasKey(poll.rows, row);
      OfferedReports(tz, poll.feed, poll.schedule, KeyOf(row));
    }
    if ReportsDate(tz, poll.feed, poll.schedule, date) {
      var key := ReportOffers(tz, poll.feed, poll.schedule, date);
      KeyHasRow(poll.rows, key);
    }
  }

  // A reported arrival within a day of the date, by the local calendar.
  predicate ArrivesNear(tz: int -> int, stop: StopUpdate, date: int) {
    stop.arrivalMs.Some? && Abs(LocalDate(tz, stop.arrivalMs.value) - date) <= 1
  }

  // The date is the feed's own, or is near an arrival of the trip.
  predicate NearDate(tz: int -> int, feed: Feed, trip: TripUpdate, date: int) {
    LocalDate(tz, feed.headerTimestampMs) == date || exists stop | stop in trip.stops :: ArrivesNear(tz, stop, date)
  }

  ghost predicate CanWrite(tz: int -> int, feed: Feed, date: int) {
    exists trip | trip in feed.tripUpdates :: Reports(trip) && NearDate(tz, feed, trip, date)
  }

  lemma ResolvedIsNear(tz: int -> int, stop: StopUpdate, schedule: TripSchedule)
    requires Anchors(stop, schedule)
    ensures var resolved := Resolve(tz, stop.arrivalMs.value, schedule.arrivalSeconds[stop.stopSequence],
                                    date => date in schedule.activeDates);
            resolved.Some? ==> ArrivesNear(tz, stop, resolved.value)
  {
    hide Distance, LocalDate, Nearest;
    var observed := stop.arrivalMs.value;
    NearestIsFirstNearest(tz, Candidates(tz, observed), schedule.arrivalSeconds[stop.stopSequence], observed,
      date => date in schedule.activeDates);
  }

  lemma {:induction false} AnchorIsNear(tz: int -> int, stops: seq<StopUpdate>, schedule: TripSchedule)
    ensures var anchor := Anchor(tz, stops, schedule);
            anchor.Some? ==> exists stop | stop in stops :: ArrivesNear(tz, stop, anchor.value)
  {
    if stops != [] {
      var stop := stops[0];
      assert stops == [stop] + stops[1..];
      if Anchors(stop, schedule) {
        ResolvedIsNear(tz, stop, schedule);
      }
      hide Resolve, ArrivesNear;
      AnchorIsNear(tz, stops[1..], schedule);
    }
  }

  lemma ReportIsNear(tz: int -> int, feed: Feed, schedule: ScheduleIndex, trip: TripUpdate)
    ensures NearDate(tz, feed, trip, Match(tz, feed, schedule, trip).resolution.serviceDate)
  {
    hide Anchor, LocalDate, ArrivesNear;
    if trip.tripId in schedule {
      AnchorIsNear(tz, trip.stops, schedule[trip.tripId]);
    }
  }

  // A schedule on which the trip runs on that date alone.
  function RunningOn(tripId: string, sequence: nat, date: int): ScheduleIndex {
    map[tripId := TripSchedule(0, {date}, map[sequence := 0])]
  }

  lemma OnlyCandidate(tz: int -> int, observed: int, runsOn: int -> bool, date: int)
    requires forall d :: runsOn(d) <==> d == date
    ensures Resolve(tz, observed, 0, runsOn) == if Abs(LocalDate(tz, observed) - date) <= 1 then Some(date) else None
  {
    hide Distance, LocalDate, Nearest;
    NearestIsFirstNearest(tz, Candidates(tz, observed), 0, observed, runsOn);
    assert Abs(LocalDate(tz, observed) - date) <= 1 <==> date in Candidates(tz, observed);
  }

  lemma {:induction false} OnlyDateAnchors(tz: int -> int, stops: seq<StopUpdate>, stop: StopUpdate, date: int)
    requires stop in stops && ArrivesNear(tz, stop, date)
    ensures Anchor(tz, stops, TripSchedule(0, {date}, map[stop.stopSequence := 0])) == Some(date)
  {
    var schedule := TripSchedule(0, {date}, map[stop.stopSequence := 0]);
    var first := stops[0];
    assert stops == [first] + stops[1..];
    if Anchors(first, schedule) {
      OnlyCandidate(tz, first.arrivalMs.value, d => d in schedule.activeDates, date);
    }
    hide Resolve, LocalDate;
    if first != stop {
      OnlyDateAnchors(tz, stops[1..], stop, date);
    }
  }

  lemma SomeSchedule(tz: int -> int, feed: Feed, trip: TripUpdate, date: int) returns (schedule: ScheduleIndex)
    requires NearDate(tz, feed, trip, date)
    ensures Match(tz, feed, schedule, trip).resolution.serviceDate == date
  {
    hide Anchor, LocalDate, ArrivesNear;
    if LocalDate(tz, feed.headerTimestampMs) == date {
      schedule := map[];
    } else {
      var stop :| stop in trip.stops && ArrivesNear(tz, stop, date);
      schedule := RunningOn(trip.tripId, stop.stopSequence, date);
      OnlyDateAnchors(tz, trip.stops, stop, date);
    }
  }

  // The dates a feed can be filed under, whatever the schedule says: its own, and
  // those within a day of an arrival of a trip it reports.
  lemma CanWriteExactlyWhen(tz: int -> int, feed: Feed, date: int)
    ensures (exists schedule :: ReportsDate(tz, feed, schedule, date)) <==> CanWrite(tz, feed, date)
  {
    hide Match, Reports, NearDate;
    if schedule :| ReportsDate(tz, feed, schedule, date) {
      var trip :| trip in feed.tripUpdates && Reports(trip)
        && Match(tz, feed, schedule, trip).resolution.serviceDate == date;
      ReportIsNear(tz, feed, schedule, trip);
    }
    if CanWrite(tz, feed, date) {
      var trip :| trip in feed.tripUpdates && Reports(trip) && NearDate(tz, feed, trip, date);
      var schedule := SomeSchedule(tz, feed, trip, date);
      assert ReportsDate(tz, feed, schedule, date);
    }
  }

  // -- The jobs --------------------------------------------------------------------------------

  // A poll, the nightly rollup at some instant, the rollup of a named date, and
  // the drop of the partitions of some days.
  datatype Job =
    | Polled(poll: Poll)
    | Nightly(at: int)
    | RolledUpOn(date: int)
    | Dropped(days: set<int>)

  // The nightly job rolls up the local day before its own.
  predicate RollsUp(tz: int -> int, job: Job, date: int) {
    match job
    case Nightly(at) => LocalDate(tz, at) - 1 == date
    case RolledUpOn(d) => d == date
    case _ => false
  }

  ghost predicate Writes(job: Job, date: int) {
    job.Polled? && WritesDate(job.poll.rows, date)
  }

  ghost predicate Spared(jobs: seq<Job>, date: int) {
    forall job | job in jobs && job.Dropped? :: date !in job.days
  }

  function RowEvents(rows: seq<ObservationRow>, contents: int -> seq<StoredRow>): (events: seq<Event>)
    ensures |events| == |rows|
    ensures forall i | 0 <= i < |rows| :: events[i] == Write(rows[i].serviceDate, contents(rows[i].serviceDate))
  {
    seq(|rows|, i requires 0 <= i < |rows| => Write(rows[i].serviceDate, contents(rows[i].serviceDate)))
  }

  // A poll writes the days of its rows, leaving each with some contents.
  function JobEvents(tz: int -> int, job: Job, contents: int -> seq<StoredRow>): seq<Event> {
    match job
    case Polled(poll) => RowEvents(poll.rows, contents)
    case Nightly(at) => [RollUp(LocalDate(tz, at) - 1)]
    case RolledUpOn(date) => [RollUp(date)]
    case Dropped(days) => [Evict(days)]
  }

  function EventsOf(tz: int -> int, jobs: seq<Job>, contents: (nat, int) -> seq<StoredRow>): seq<Event> {
    if jobs == [] then []
    else
      var n := |jobs| - 1;
      EventsOf(tz, jobs[..n], contents) + JobEvents(tz, jobs[n], date => contents(n, date))
  }

  lemma {:induction false} EventsConcat(a: seq<Event>, b: seq<Event>, date: int)
    ensures Pending(a + b, date) <==> Pending(b, date) || (Pending(a, date) && RollUp(date) !in b)
    ensures Written(a + b, date) <==> Written(a, date) || Written(b, date)
    ensures Rolled(a + b, date) <==> Rolled(a, date) || Rolled(b, date) || (Written(a, date) && RollUp(date) in b)
    decreases |b|
  {
    if b == [] {
      assert a + b == a;
    } else {
      var n := |b| - 1;
      assert (a + b)[..|a + b| - 1] == a + b[..n] && b == b[..n] + [b[n]];
      EventsConcat(a, b[..n], date);
    }
  }

  lemma {:induction false} OnlyWrites(events: seq<Event>, date: int)
    requires forall e | e in events :: e.Write?
    ensures Pending(events, date) <==> exists e | e in events :: e.date == date
    ensures Written(events, date) <==> exists e | e in events :: e.date == date
    ensures !Rolled(events, date) && RollUp(date) !in events
    decreases |events|
  {
    if events != [] {
      var n := |events| - 1;
      assert events == events[..n] + [events[n]];
      OnlyWrites(events[..n], date);
    }
  }

  lemma JobDecides(tz: int -> int, job: Job, contents: int -> seq<StoredRow>, date: int)
    ensures var events := JobEvents(tz, job, contents);
            && (Pending(events, date) <==> Writes(job, date)) && (Written(events, date) <==> Writes(job, date))
            && !Rolled(events, date) && (RollUp(date) in events <==> RollsUp(tz, job, date))
            && (job.Dropped? ==> events == [Evict(job.days)]) && (!job.Dropped? ==> forall e | e in events :: !e.Evict?)
  {
    hide LocalDate;
    if job.Polled? {
      var (rows, events) := (job.poll.rows, RowEvents(job.poll.rows, contents));
      OnlyWrites(events, date);
      if row :| row in rows && row.serviceDate == date {
        var i :| 0 <= i < |rows| && rows[i] == row;
        assert events[i] in events;
      }
      if e :| e in events && e.date == date {
        var i :| 0 <= i < |events| && events[i] == e;
        assert rows[i] in rows;
      }
    } else {
      var events := JobEvents(tz, job, contents);
      assert events[..0] == [] && events == [events[0]];
    }
  }

  // A day was written and not rolled up since.
  ghost predicate Unsettled(tz: int -> int, jobs: seq<Job>, date: int) {
    exists i | 0 <= i < |jobs| :: Writes(jobs[i], date) && forall j | i < j < |jobs| :: !RollsUp(tz, jobs[j], date)
  }

  ghost predicate WrittenBy(jobs: seq<Job>, date: int) {
    exists job | job in jobs :: Writes(job, date)
  }

  // A day was rolled up after it had been written.
  ghost predicate Summarised(tz: int -> int, jobs: seq<Job>, date: int) {
    exists j | 0 <= j < |jobs| :: RollsUp(tz, jobs[j], date) && WrittenBy(jobs[..j], date)
  }

  lemma UnsettledStep(tz: int -> int, jobs: seq<Job>, date: int)
    requires jobs != []
    ensures var n := |jobs| - 1;
            Unsettled(tz, jobs, date) <==>
            Writes(jobs[n], date) || (Unsettled(tz, jobs[..n], date) && !RollsUp(tz, jobs[n], date))
  {
    hide RollsUp, Writes;
    var n := |jobs| - 1;
    if Unsettled(tz, jobs, date) && !Writes(jobs[n], date) {
      var i :| 0 <= i < |jobs| && Writes(jobs[i], date) && forall j | i < j < |jobs| :: !RollsUp(tz, jobs[j], date);
      assert Writes(jobs[..n][i], date) && forall j | i < j < n :: !RollsUp(tz, jobs[..n][j], date);
    }
    if Unsettled(tz, jobs[..n], date) && !RollsUp(tz, jobs[n], date) {
      var i :| 0 <= i < n && Writes(jobs[..n][i], date) && forall j | i < j < n :: !RollsUp(tz, jobs[..n][j], date);
      assert Writes(jobs[i], date) && forall j | i < j < n :: jobs[j] == jobs[..n][j];
    }
  }

  lemma SummarisedStep(tz: int -> int, jobs: seq<Job>, date: int)
    requires jobs != []
    ensures var n := |jobs| - 1;
            && (WrittenBy(jobs, date) <==> WrittenBy(jobs[..n], date) || Writes(jobs[n], date))
            && (Summarised(tz, jobs, date) <==>
                  Summarised(tz, jobs[..n], date) || (RollsUp(tz, jobs[n], date) && WrittenBy(jobs[..n], date)))
  {
    hide RollsUp, Writes;
    var n := |jobs| - 1;
    assert jobs == jobs[..n] + [jobs[n]];
    assert forall j | 0 <= j < n :: jobs[..n][..j] == jobs[..j];
  }

  lemma NoJobs(tz: int -> int, contents: (nat, int) -> seq<StoredRow>, date: int)
    ensures EventsOf(tz, [], contents) == []
    ensures !Pending([], date) && !Written([], date) && !Rolled([], date)
    ensures !Unsettled(tz, [], date) && !WrittenBy([], date) && !Summarised(tz, [], date)
  {
  }

  // What the jobs leave a day: whether it is pending, and whether it has been
  // rolled up since it was first written.
  lemma {:induction false} DayIsPendingExactlyWhen(tz: int -> int, jobs: seq<Job>,
                                                   contents: (nat, int) -> seq<StoredRow>, date: int)
    ensures var events := EventsOf(tz, jobs, contents);
            && (Pending(events, date) <==> Unsettled(tz, jobs, date))
            && (Written(events, date) <==> WrittenBy(jobs, date))
            && (Rolled(events, date) <==> Summarised(tz, jobs, date))
            && (NeverEvicted(events, date) <==> Spared(jobs, date))
  {
    hide Unsettled, Summarised, WrittenBy, Writes, Pending, Written, Rolled, RollsUp, JobEvents;
    if jobs == [] {
      NoJobs(tz, contents, date);
    } else {
      var n := |jobs| - 1;
      var (before, last) := (EventsOf(tz, jobs[..n], contents), JobEvents(tz, jobs[n], d => contents(n, d)));
      DayIsPendingExactlyWhen(tz, jobs[..n], contents, date);
      JobDecides(tz, jobs[n], d => contents(n, d), date);
      EventsConcat(before, last, date);
      UnsettledStep(tz, jobs, date);
      SummarisedStep(tz, jobs, date);
      assert jobs == jobs[..n] + [jobs[n]];
    }
  }

  // -- The nightly rollup ---------------------------------------------------------------------

  // A day's figures are right after its partition is dropped, whatever its polls
  // left in it.
  ghost predicate DropIsRight(events: seq<Event>, date: int) {
    forall other | SameShape(events, other, {date}) && Guarded(Run(NO_HISTORY, other), {date}) ::
      RightAfterDrop(Run(NO_HISTORY, other), {date}, date)
  }

  lemma DropIsRightUnlessPending(events: seq<Event>, date: int)
    requires NeverEvicted(events, date)
    ensures DropIsRight(events, date) <==> !(Pending(events, date) && Rolled(events, date))
  {
    hide Run, Guarded, RightAfterDrop, SameShape, NeverEvicted, Pending, Rolled;
    GuardedDropIsRightExactlyWhen(events, {date});
    assert date in {date};
  }

  lemma NothingWritten(tz: int -> int, rollup: Job, date: int)
    requires RollsUp(tz, rollup, date)
    ensures !Writes(rollup, date) && !WrittenBy([], date)
  {
  }

  lemma SummarisedWasWritten(tz: int -> int, jobs: seq<Job>, date: int)
    ensures Summarised(tz, jobs, date) ==> WrittenBy(jobs, date)
  {
    hide RollsUp, Writes;
    if j :| 0 <= j < |jobs| && RollsUp(tz, jobs[j], date) && WrittenBy(jobs[..j], date) {
      var job :| job in jobs[..j] && Writes(job, date);
      assert job in jobs;
    }
  }

  lemma {:induction false} RollupThenJobs(tz: int -> int, before: seq<Job>, rollup: Job, after: seq<Job>, date: int)
    requires RollsUp(tz, rollup, date) && forall job | job in after :: !RollsUp(tz, job, date)
    ensures var jobs := before + [rollup] + after;
            && (Unsettled(tz, jobs, date) <==> WrittenBy(after, date))
            && (Summarised(tz, jobs, date) <==> WrittenBy(before, date) || Summarised(tz, before, date))
            && (Summarised(tz, before, date) ==> WrittenBy(before, date))
  {
    hide Unsettled, Summarised, WrittenBy, RollsUp;
    var jobs := before + [rollup] + after;
    var n := |jobs| - 1;
    UnsettledStep(tz, jobs, date);
    SummarisedStep(tz, jobs, date);
    SummarisedWasWritten(tz, before, date);
    if after == [] {
      assert jobs[..n] == before && jobs[n] == rollup;
      assert !Writes(rollup, date) && !WrittenBy([], date) by { NothingWritten(tz, rollup, date); }
    } else {
      var m := |after| - 1;
      assert jobs[..n] == before + [rollup] + after[..m] && jobs[n] == after[m];
      RollupThenJobs(tz, before, rollup, after[..m], date);
      SummarisedStep(tz, after, date);
    }
  }

  // The last rollup of a day, the nightly one of the day after or another, leaves
  // it pending exactly when some later poll writes it. Its figures outlive its rows
  // exactly when none does, or none did before.
  lemma LastRollupIsEnoughExactlyWhen(tz: int -> int, before: seq<Job>, rollup: Job, after: seq<Job>,
                                      contents: (nat, int) -> seq<StoredRow>, date: int)
    requires RollsUp(tz, rollup, date) && forall job | job in after :: !RollsUp(tz, job, date)
    requires Spared(before + [rollup] + after, date)
    ensures var events := EventsOf(tz, before + [rollup] + after, contents);
            && (Pending(events, date) <==> WrittenBy(after, date))
            && (DropIsRight(events, date) <==> !(WrittenBy(before, date) && WrittenBy(after, date)))
  {
    hide DropIsRight, EventsOf, Pending, Rolled, Written, NeverEvicted, Writes, RollsUp;
    var jobs := before + [rollup] + after;
    DayIsPendingExactlyWhen(tz, jobs, contents, date);
    DropIsRightUnlessPending(EventsOf(tz, jobs, contents), date);
    RollupThenJobs(tz, before, rollup, after, date);
  }

  // So it is enough once no feed polled after it carries the day's date, or an
  // arrival within a day of it.
  lemma QuietDayIsSettled(tz: int -> int, before: seq<Job>, rollup: Job, after: seq<Job>,
                          contents: (nat, int) -> seq<StoredRow>, date: int)
    requires RollsUp(tz, rollup, date) && forall job | job in after :: !RollsUp(tz, job, date)
    requires Spared(before + [rollup] + after, date)
    requires forall job | job in after && job.Polled? :: IsPoll(tz, job.poll) && !CanWrite(tz, job.poll.feed, date)
    ensures DropIsRight(EventsOf(tz, before + [rollup] + after, contents), date)
  {
    hide DropIsRight, EventsOf, IsPoll, CanWrite, LocalDate, ReportsDate, WritesDate, Spared, RollsUp;
    forall job | job in after
      ensures !Writes(job, date)
    {
      if job.Polled? {
        PollWritesDate(tz, job.poll, date);
        CanWriteExactlyWhen(tz, job.poll.feed, date);
      }
    }
    LastRollupIsEnoughExactlyWhen(tz, before, rollup, after, contents, date);
  }

  // -- A stop after the rollup ------------------------------------------------------------------

  // A trip due at 27:30:00 of 1 January 1970, six hours behind, and the nightly
  // rollup a quarter of an hour before.
  const LATE_DUE: int := 33 * HOUR + HOUR / 2
  const ROLLUP_AT: int := 33 * HOUR + HOUR / 4
  const LATE_STOP: StopUpdate := StopUpdate(1, "stop", 0, Some(LATE_DUE), None)
  const LATE_TRIP: TripUpdate := TripUpdate("trip", false, "route", None, None, [LATE_STOP])
  const LATE_SCHEDULE: ScheduleIndex := map["trip" := TripSchedule(1, {0}, map[1 := 99_000])]

  function LateFeed(now: int): Feed {
    Feed(now, [LATE_TRIP])
  }

  lemma LateTripIsOfTheFirst(now: int)
    ensures RegularZone(SixBehind) && LocalDate(SixBehind, ROLLUP_AT) == 1
    ensures ReportsDate(SixBehind, LateFeed(now), LATE_SCHEDULE, 0)
  {
    assert ScheduledInstant(SixBehind, 0, 99_000) == LATE_DUE;
    assert RegularZone(SixBehind) && LocalDate(SixBehind, ROLLUP_AT) == 1;
    hide RegularZone, ScheduledInstant, LocalDate;
    var scheduled := LATE_SCHEDULE["trip"];
    assert forall stop | stop in LATE_TRIP.stops :: stop == LATE_STOP && SeenNear(SixBehind, stop, scheduled, 0);
    assert LATE_STOP in LATE_TRIP.stops && Anchors(LATE_STOP, scheduled) && Emits(LATE_STOP);
    AnchorIsScheduledDay(SixBehind, LATE_TRIP.stops, scheduled, 0);
    assert LATE_TRIP in LateFeed(now).tripUpdates && Reports(LATE_TRIP);
  }

  // Polled an hour before the rollup and again when it is due, the trip is filed
  // under the rolled-up day both times: the guard may let that day's partition go
  // with figures that miss the later poll.
  lemma LateStopIsMissed(early: Poll, late: Poll, contents: (nat, int) -> seq<StoredRow>)
    requires IsPoll(SixBehind, early) && early.feed == LateFeed(ROLLUP_AT - HOUR) && early.schedule == LATE_SCHEDULE
    requires IsPoll(SixBehind, late) && late.feed == LateFeed(LATE_DUE) && late.schedule == LATE_SCHEDULE
    ensures var jobs := [Polled(early)] + [Nightly(ROLLUP_AT)] + [Polled(late)];
            Pending(EventsOf(SixBehind, jobs, contents), 0) && !DropIsRight(EventsOf(SixBehind, jobs, contents), 0)
  {
    hide DropIsRight, EventsOf, IsPoll, LocalDate, ReportsDate, WritesDate, Pending;
    var (before, after) := ([Polled(early)], [Polled(late)]);
    LateTripIsOfTheFirst(ROLLUP_AT - HOUR);
    LateTripIsOfTheFirst(LATE_DUE);
    PollWritesDate(SixBehind, early, 0);
    PollWritesDate(SixBehind, late, 0);
    assert Writes(before[0], 0) && Writes(after[0], 0);
    LastRollupIsEnoughExactlyWhen(SixBehind, before, Nightly(ROLLUP_AT), after, contents, 0);
  }
}
