// One poll of the trip-updates loop, end to end, and any number of them:
// pollTripUpdates and onDayRollover of src/worker.ts.
module Pipeline {
  import opened Wrappers
  import opened Transform
  import opened Upsert
  import Archive
  import ArchiveHours
  import HourlyArchive
  import Schedule
  import Partitions
  import Calendar
  import opened ServiceDay

  function TripIds(trips: seq<TripUpdate>): (ids: seq<string>)
    ensures |ids| == |trips| && forall i | 0 <= i < |trips| :: ids[i] == trips[i].tripId
  {
    seq(|trips|, i requires 0 <= i < |trips| => trips[i].tripId)
  }

  // What one poll contributed: the record it archived, the feed that held, the
  // schedule it was matched against, and the rows it wrote.
  datatype Poll = Poll(
    record: Archive.Record, feed: Feed, schedule: ScheduleIndex, rows: seq<ObservationRow>, stats: Stats)

  ghost predicate IsPoll(tz: int -> int, poll: Poll) {
    IsTransform(tz, poll.feed, poll.schedule, poll.rows, poll.stats)
  }

  function Batches(polls: seq<Poll>): (batches: seq<seq<ObservationRow>>) {
    if polls == [] then [] else Batches(polls[..|polls| - 1]) + [polls[|polls| - 1].rows]
  }

  function AllRows(polls: seq<Poll>): seq<ObservationRow> {
    if polls == [] then [] else AllRows(polls[..|polls| - 1]) + polls[|polls| - 1].rows
  }

  lemma {:induction false} BatchCount(polls: seq<Poll>)
    ensures |Batches(polls)| == |polls|
  {
    if polls != [] {
      BatchCount(polls[..|polls| - 1]);
    }
  }

  // A batch that the transform made is never refused, and none of its rows is
  // half matched.
  lemma {:induction false} PollsAreAccepted(tz: int -> int, polls: seq<Poll>)
    requires forall poll | poll in polls :: IsPoll(tz, poll)
    ensures Accepted(Batches(polls)) == AllRows(polls)
    ensures AllOrNothing(AllRows(polls))
  {
    if polls != [] {
      var n := |polls| - 1;
      var poll := polls[n];
      assert polls == polls[..n] + [poll] && poll in polls;
      PollsAreAccepted(tz, polls[..n]);
      TransformOutput(tz, poll.feed, poll.schedule, poll.rows, poll.stats);
      hide KeysDistinct, ScheduleAllOrNothing, IsTransform;
      assert Batches(polls)[..n] == Batches(polls[..n]) by { BatchCount(polls[..n]); }
    }
  }

  lemma {:induction false} HistoryHasKey(rows: seq<ObservationRow>, key: RowKey)
    ensures HistoryOf(rows, key) != [] <==> HasKey(rows, key)
  {
    if rows != [] {
      var n := |rows| - 1;
      HistoryHasKey(rows[..n], key);
      assert rows == rows[..n] + [rows[n]];
    }
  }

  // A key has a row exactly when some poll offered it.
  lemma {:induction false} HistoryIsOffered(tz: int -> int, polls: seq<Poll>, key: RowKey)
    requires forall poll | poll in polls :: IsPoll(tz, poll)
    ensures HistoryOf(AllRows(polls), key) != [] <==>
            exists poll | poll in polls :: Offered(tz, poll.feed, poll.schedule, poll.feed.tripUpdates, key)
  {
    if polls != [] {
      var n := |polls| - 1;
      var poll := polls[n];
      assert polls == polls[..n] + [poll] && poll in polls;
      HistoryIsOffered(tz, polls[..n], key);
      TransformOutput(tz, poll.feed, poll.schedule, poll.rows, poll.stats);
      HistoryOfConcat(AllRows(polls[..n]), poll.rows, key);
      HistoryHasKey(poll.rows, key);
      hide IsTransform, Offered, HasKey, HistoryOf, AllRows;
      assert HasKey(poll.rows, key) <==> Offered(tz, poll.feed, poll.schedule, poll.feed.tripUpdates, key);
    }
  }

  // Whatever feeds are polled, the table they leave holds exactly the keys they
  // offered, each with the closed form of its own polls.
  lemma PolledTableIsClosedForm(tz: int -> int, polls: seq<Poll>, key: RowKey)
    requires forall poll | poll in polls :: IsPoll(tz, poll)
    ensures var table, h := ApplyBatches(map[], Batches(polls)), HistoryOf(AllRows(polls), key);
            && (key in table <==>
                  exists poll | poll in polls :: Offered(tz, poll.feed, poll.schedule, poll.feed.tripUpdates, key))
            && (key in table ==> h != [] && table[key] == Closed(h))
  {
    hide IsPoll, Offered, HistoryOf, Closed, AllOrNothing, AllRows, Batches, ApplyBatches;
    PollsAreAccepted(tz, polls);
    StoredRowIsClosedForm(Batches(polls), key);
    HistoryIsOffered(tz, polls, key);
  }

  // -- Filling in ------------------------------------------------------------------------------

  lemma {:induction false} StaysUnmatched(rows: Rows, batch: seq<ObservationRow>, key: RowKey)
    requires key in rows && rows[key].scheduledArrivalMs.None?
    requires forall row | row in batch && KeyOf(row) == key :: row.scheduledArrivalMs.None?
    ensures key in ApplyRows(rows, batch) && ApplyRows(rows, batch)[key].scheduledArrivalMs.None?
  {
    if batch != [] {
      var n := |batch| - 1;
      assert batch == batch[..n] + [batch[n]] && batch[n] in batch;
      StaysUnmatched(rows, batch[..n], key);
    }
  }

  // A poll whose trip could not be anchored files its stop under the feed's local
  // date, unmatched. A later poll that anchors the trip, whatever unmatched polls
  // of the stop and polls of anything else come between, fills that row in exactly
  // when the feed's local date was the anchored one; otherwise the match is a
  // second row, and the first stays unmatched.
  lemma FillInExactlyWhen(rows: Rows, first: Matched, stop: StopUpdate, between: seq<ObservationRow>,
                          later: Matched, laterStop: StopUpdate)
    requires Emits(stop) && Emits(laterStop) && laterStop.stopSequence == stop.stopSequence
    requires later.trip.tripId == first.trip.tripId && later.trip.isModified == first.trip.isModified
    requires !first.resolution.anchored
    requires later.resolution.anchored && later.schedule.Some?
             && laterStop.stopSequence in later.schedule.value.arrivalSeconds
    requires var key := KeyOf(RowFor(first, stop));
             && (key in rows ==> rows[key].scheduledArrivalMs.None?)
             && forall row | row in between && KeyOf(row) == key :: row.scheduledArrivalMs.None?
    ensures var key := KeyOf(RowFor(first, stop));
            var table := ApplyRows(rows, [RowFor(first, stop)] + between + [RowFor(later, laterStop)]);
            && key in table
            && (table[key].scheduledArrivalMs.Some? <==> first.resolution.serviceDate == later.resolution.serviceDate)
            && KeyOf(RowFor(later, laterStop)) in table
            && table[KeyOf(RowFor(later, laterStop))].scheduledArrivalMs.Some?
  {
    var (a, b) := (RowFor(first, stop), RowFor(later, laterStop));
    assert [a][..0] == [] && ApplyRows(rows, [a]) == ApplyRow(rows, a);
    assert a.scheduledArrivalMs.None? && b.scheduledArrivalMs.Some?;
    hide RowFor;
    StaysUnmatched(ApplyRow(rows, a), between, KeyOf(a));
    ApplyRowsConcat(rows, [a], between);
    var all := [a] + between + [b];
    assert all[..|all| - 1] == [a] + between;
  }

  // A zone six hours behind, without clock changes; and a trip due at 24:30:00 of
  // 1 January 1970, polled on time at half past midnight.
  function SixBehind(instant: int): int {
    -6 * HOUR
  }

  const HALF_PAST_MIDNIGHT: int := 30 * HOUR + HOUR / 2
  const NIGHT_STOP: StopUpdate := StopUpdate(1, "stop", 0, Some(HALF_PAST_MIDNIGHT), None)
  const NIGHT_TRIP: TripUpdate := TripUpdate("trip", false, "route", None, None, [NIGHT_STOP])
  const NIGHT_FEED: Feed := Feed(HALF_PAST_MIDNIGHT, [NIGHT_TRIP])
  const NIGHT_SCHEDULE: ScheduleIndex := map["trip" := TripSchedule(1, {0}, map[1 := 88_200])]

  lemma UnknownTripFallsBack(tz: int -> int, feed: Feed, trip: TripUpdate)
    ensures Match(tz, feed, map[], trip).resolution == Resolution(LocalDate(tz, feed.headerTimestampMs), false)
  {
  }

  lemma NightIsTheSecond()
    ensures LocalDate(SixBehind, HALF_PAST_MIDNIGHT) == 1
    ensures ScheduledInstant(SixBehind, 0, 88_200) == HALF_PAST_MIDNIGHT
  {
  }

  lemma NightTripIsAnchored()
    ensures RegularZone(SixBehind)
    ensures Match(SixBehind, NIGHT_FEED, NIGHT_SCHEDULE, NIGHT_TRIP).resolution == Resolution(0, true)
  {
    NightIsTheSecond();
    assert RegularZone(SixBehind);
    hide RegularZone, ScheduledInstant, LocalDate;
    var scheduled := NIGHT_SCHEDULE["trip"];
    assert forall stop | stop in NIGHT_TRIP.stops :: stop == NIGHT_STOP && SeenNear(SixBehind, stop, scheduled, 0);
    assert NIGHT_STOP in NIGHT_TRIP.stops && Anchors(NIGHT_STOP, scheduled);
    AnchorIsScheduledDay(SixBehind, NIGHT_TRIP.stops, scheduled, 0);
  }

  // Polled before the schedule knows it, the stop is filed under the 2nd; polled
  // again once it does, under the 1st. The first row stays unmatched.
  lemma NightRowIsNotFilledIn()
    ensures RegularZone(SixBehind)
    ensures var early := Match(SixBehind, NIGHT_FEED, map[], NIGHT_TRIP);
            var late := Match(SixBehind, NIGHT_FEED, NIGHT_SCHEDULE, NIGHT_TRIP);
            && early.resolution == Resolution(1, false) && late.resolution == Resolution(0, true)
            && var key := KeyOf(RowFor(early, NIGHT_STOP));
               var table := ApplyRows(map[], [RowFor(early, NIGHT_STOP)] + [] + [RowFor(late, NIGHT_STOP)]);
               key in table && table[key].scheduledArrivalMs.None?
  {
    var early := Match(SixBehind, NIGHT_FEED, map[], NIGHT_TRIP);
    var late := Match(SixBehind, NIGHT_FEED, NIGHT_SCHEDULE, NIGHT_TRIP);
    NightTripIsAnchored();
    NightIsTheSecond();
    hide RowFor, ResolveTrip, LocalDate;
    assert early.resolution == Resolution(1, false) by { UnknownTripFallsBack(SixBehind, NIGHT_FEED, NIGHT_TRIP); }
    FillInExactlyWhen(map[], early, NIGHT_STOP, [], late, NIGHT_STOP);
  }

  // -- The worker --------------------------------------------------------------------------

  // The writer of the record was told that it is kept.
  ghost predicate Acknowledged(w: Archive.World, record: Archive.Record) {
    exists s | 0 <= s < |w.sessions| :: record in w.sessions[s].acked
  }

  // Every poll is the transform of what its record decodes to, and its record was
  // acknowledged.
  ghost predicate PollsAreArchived(tz: int -> int, decode: Archive.Record -> Option<Feed>, w: Archive.World,
                                   polls: seq<Poll>) {
    forall poll | poll in polls ::
      IsPoll(tz, poll) && decode(poll.record) == Some(poll.feed) && Acknowledged(w, poll.record)
  }

  lemma PollArchived(tz: int -> int, decode: Archive.Record -> Option<Feed>, w: Archive.World, polls: seq<Poll>,
                     poll: Poll)
    requires PollsAreArchived(tz, decode, w, polls) && decode(poll.record) == Some(poll.feed)
             && Acknowledged(w, poll.record)
    requires IsTransform(tz, poll.feed, poll.schedule, poll.rows, poll.stats)
    ensures PollsAreArchived(tz, decode, w, polls + [poll])
  {
    hide IsTransform, Acknowledged;
  }

  // Acknowledgements are not taken back.
  ghost predicate KeepsAcked(w: Archive.World, w': Archive.World) {
    forall record | Acknowledged(w, record) :: Acknowledged(w', record)
  }

  lemma MoreSessions(w: Archive.World, w': Archive.World)
    requires |w.sessions| <= |w'.sessions|
    requires forall s, record | 0 <= s < |w.sessions| && record in w.sessions[s].acked :: record in w'.sessions[s].acked
    ensures KeepsAcked(w, w')
  {
    forall record | Acknowledged(w, record)
      ensures Acknowledged(w', record)
    {
      var s :| 0 <= s < |w.sessions| && record in w.sessions[s].acked;
      assert record in w'.sessions[s].acked;
    }
  }

  lemma AckedAt(w: Archive.World, record: Archive.Record, s: nat)
    requires s < |w.sessions| && record in w.sessions[s].acked
    ensures Acknowledged(w, record)
  {
  }

  lemma AcceptAcknowledges(w: Archive.World, record: Archive.Record)
    requires record.feed in w.shards && w.shards[record.feed].session < |w.sessions|
    ensures KeepsAcked(w, Archive.Accept(w, record)) && Acknowledged(Archive.Accept(w, record), record)
  {
    hide KeepsAcked, Acknowledged;
    var w' := Archive.Accept(w, record);
    var s := w.shards[record.feed].session;
    assert record in w'.sessions[s].acked;
    assert Acknowledged(w', record) by { AckedAt(w', record, s); }
    MoreSessions(w, w');
  }

  lemma KeptTwice(a: Archive.World, b: Archive.World, c: Archive.World)
    requires KeepsAcked(a, b) && KeepsAcked(b, c)
    ensures KeepsAcked(a, c)
  {
    hide Acknowledged;
  }

  lemma WriteAcknowledges(w: Archive.World, record: Archive.Record, stamp: int, outcome: Archive.Outcome,
                          opening: Archive.Opening, acknowledged: bool)
    requires Archive.Inv(w)
    ensures var w' := Archive.Step(w, Archive.Write(record, stamp, outcome, opening, acknowledged));
            && KeepsAcked(w, w')
            && (acknowledged && record.feed in w'.shards ==> Acknowledged(w', record))
  {
    hide Archive.Inv, Archive.ShardFor, Acknowledged, Archive.Accept, KeepsAcked;
    var hour := Archive.HourOf(record.fetchedAtMs);
    var ready := Archive.ShardFor(w, record.feed, hour, stamp, outcome, opening);
    Archive.ShardForKeepsInv(w, record.feed, hour, stamp, outcome, opening);
    ArchiveHours.ShardForSessions(w, record.feed, hour, stamp, outcome, opening);
    MoreSessions(w, ready);
    if acknowledged && record.feed in ready.shards {
      Archive.AcceptKeepsInv(ready, record);
      AcceptAcknowledges(ready, record);
      KeptTwice(w, ready, Archive.Accept(ready, record));
    }
  }

  lemma StillArchived(tz: int -> int, decode: Archive.Record -> Option<Feed>, w: Archive.World, w': Archive.World,
                      polls: seq<Poll>)
    requires PollsAreArchived(tz, decode, w, polls) && KeepsAcked(w, w')
    ensures PollsAreArchived(tz, decode, w', polls)
  {
    hide Acknowledged, IsPoll;
  }

  lemma Cleared(database: map<int, Schedule.Tables>, c: Schedule.Cache, after: Schedule.Cache)
    requires Schedule.IsCall(database, c, Schedule.ClearTrips, after)
    ensures after == c.(trips := map[])
  {
  }

  lemma BoundExactlyWhen(versions: seq<Schedule.Version>, onDate: int, bound: Option<int>)
    requires Schedule.IsBinding(versions, onDate, bound)
    ensures bound.None? <==> Schedule.NoneComplete(versions)
  {
  }

  lemma InitialiseCompletes(database: map<int, Schedule.Tables>, c: Schedule.Cache, versions: seq<Schedule.Version>,
                            now: int, loading: Schedule.Loading, after: Schedule.Cache)
    requires Schedule.IsCall(database, c, Schedule.Initialise(versions, now, loading), after)
    ensures Schedule.Completes(versions, loading) <==>
            loading == Schedule.Completed || (loading == Schedule.CalendarQueryFailed && after.bound.None?)
  {
    hide Schedule.IsInitialised, Schedule.IsBinding, Schedule.NoneComplete;
    if loading != Schedule.VersionQueryFailed {
      BoundExactlyWhen(versions, now, after.bound);
    }
  }

  // After a rollover that ran to its end no trip is cached, and a version is bound
  // exactly when one is complete.
  lemma RolledCache(database: map<int, Schedule.Tables>, c: Schedule.Cache, versions: seq<Schedule.Version>,
                    now: int, loading: Schedule.Loading, after: Schedule.Cache)
    requires Schedule.IsCall(database, c, Schedule.Initialise(versions, now, loading), after)
    requires c.trips == map[] && Schedule.Completes(versions, loading)
    ensures after.trips == map[] && (after.bound.None? <==> Schedule.NoneComplete(versions))
  {
    hide Schedule.IsBinding, Schedule.NoneComplete, Schedule.Expanded;
    BoundExactlyWhen(versions, now, after.bound);
  }

  // Whether a cache holds all a feed asks of it, on the same day or after a
  // rollover that has emptied it.
  ghost predicate HasTrips(c: Schedule.Cache, feed: Feed, sameDay: bool, versions: seq<Schedule.Version>) {
    if sameDay then c.bound.None? || forall trip | trip in feed.tripUpdates :: trip.tripId in c.trips
    else Schedule.NoneComplete(versions) || feed.tripUpdates == []
  }

  lemma AskedAfterRollover(before: Schedule.Cache, c: Schedule.Cache, feed: Feed, sameDay: bool,
                           versions: seq<Schedule.Version>)
    requires if sameDay then c == before else c.trips == map[] && (c.bound.None? <==> Schedule.NoneComplete(versions))
    ensures HasTrips(before, feed, sameDay, versions) <==>
            c.bound.None? || forall tripId | tripId in TripIds(feed.tripUpdates) :: tripId in c.trips
  {
    hide Schedule.NoneComplete;
    var (trips, ids) := (feed.tripUpdates, TripIds(feed.tripUpdates));
    forall trip | trip in trips
      ensures trip.tripId in ids
    {
      var i :| 0 <= i < |trips| && trips[i] == trip;
      assert ids[i] == trip.tripId;
    }
    forall tripId | tripId in ids
      ensures exists trip | trip in trips :: trip.tripId == tripId
    {
      var i :| 0 <= i < |ids| && ids[i] == tripId;
      assert trips[i].tripId == tripId;
    }
    if trips != [] {
      assert trips[0] in trips;
    }
  }

  lemma IndexKeepsBinding(database: map<int, Schedule.Tables>, c: Schedule.Cache, tripIds: set<string>, queries: bool,
                          after: Schedule.Cache)
    requires Schedule.IsCall(database, c, Schedule.IndexFor(tripIds, queries), after)
    ensures after.(trips := map[]) == c.(trips := map[])
  {
    hide Schedule.CacheJoins;
  }

  // An index, on the trips of a feed.
  ghost predicate MatchedAgainst(database: map<int, Schedule.Tables>, c: Schedule.Cache, feed: Feed,
                                 index: ScheduleIndex) {
    if c.bound.None? then index == map[]
    else
      c.bound.value in database
      && forall trip | trip in feed.tripUpdates ::
           Schedule.IsJoin(database[c.bound.value], c.dates, c.bound.value, trip.tripId, Lookup(index, trip.tripId))
  }

  lemma IndexIsMatched(schedule: Schedule.ScheduleCache, feed: Feed, index: ScheduleIndex)
    requires schedule.Valid()
    requires schedule.feedVersionId.None? ==> index == map[]
    requires schedule.feedVersionId.Some? ==> forall tripId | tripId in TripIds(feed.tripUpdates) ::
               tripId in schedule.trips && Lookup(index, tripId) == schedule.trips[tripId]
    ensures MatchedAgainst(schedule.database, schedule.State(), feed, index)
  {
    hide Schedule.IsJoin, Schedule.Expanded, Schedule.KeysUnique;
    var ids := TripIds(feed.tripUpdates);
    forall trip | trip in feed.tripUpdates
      ensures trip.tripId in ids
    {
      var i :| 0 <= i < |feed.tripUpdates| && feed.tripUpdates[i] == trip;
      assert ids[i] == trip.tripId;
    }
  }

  lemma PollAppended(tz: int -> int, base: Rows, polls: seq<Poll>, poll: Poll)
    requires KeysDistinct(poll.rows)
    ensures ApplyBatches(base, Batches(polls + [poll])) == ApplyRows(ApplyBatches(base, Batches(polls)), poll.rows)
  {
    hide KeysDistinct, ApplyRows;
    assert (polls + [poll])[..|polls|] == polls;
    var batches := Batches(polls);
    assert (batches + [poll.rows])[..|batches|] == batches;
  }

  class Worker {
    const tz: int -> int
    const decode: Archive.Record -> Option<Feed>
    const archive: HourlyArchive.HourlyNdjsonArchive
    const schedule: Schedule.ScheduleCache
    const partitions: Partitions.PartitionedTable
    var currentServiceDay: int
    var totalObservations: nat
    // The table and the total this process started from, and its polls since.
    ghost const base: Rows
    ghost const seed: nat
    ghost var polls: seq<Poll>

    // Every row written since comes from a record that was acknowledged first.
    ghost predicate Valid()
      reads this, archive, schedule, partitions, partitions.table
    {
      && archive.Valid() && schedule.Valid() && partitions.Valid()
      && PollsAreArchived(tz, decode, archive.State(), polls)
      && partitions.table.rows == ApplyBatches(base, Batches(polls))
      && totalObservations == seed + |partitions.table.rows| - |base|
    }

    constructor (tz: int -> int, decode: Archive.Record -> Option<Feed>, archive: HourlyArchive.HourlyNdjsonArchive,
                 schedule: Schedule.ScheduleCache, partitions: Partitions.PartitionedTable, today: int, total: nat)
      requires archive.Valid() && schedule.Valid() && partitions.Valid()
      ensures Valid() && this.tz == tz && this.decode == decode && this.archive == archive
      ensures this.schedule == schedule && this.partitions == partitions
      ensures currentServiceDay == today && totalObservations == total
      ensures polls == [] && base == partitions.table.rows && seed == total
    {
      this.tz, this.decode, this.archive := tz, decode, archive;
      this.schedule, this.partitions, this.currentServiceDay := schedule, partitions, today;
      totalObservations, polls, seed, base := total, [], total, partitions.table.rows;
    }

    // Whether the rollover a poll begins with runs to its end.
    ghost predicate RollsOver(now: int, versions: seq<Schedule.Version>, reach: nat, loading: Schedule.Loading)
      reads this, partitions, partitions.table
    {
      now == currentServiceDay || (CanPartition(now, reach) && Schedule.Completes(versions, loading))
    }

    ghost predicate CanPartition(now: int, reach: nat)
      reads this, partitions, partitions.table
    {
      Partitions.CanEnsure(partitions.partitions, partitions.table.rows, Calendar.WeekStart(now), 7, reach)
    }

    // Whether, after its rollover, the feed's trips are all cached already.
    ghost predicate NeedsNoQuery(feed: Feed, now: int, versions: seq<Schedule.Version>)
      reads this, schedule
    {
      HasTrips(schedule.State(), feed, now == currentServiceDay, versions)
    }

    // The day is recorded first, so a failure on the way is not retried that day.
    // If the seven weeks cannot all be partitioned the cache is left as it was;
    // otherwise it takes the step of an initialise that turns out as it may.
    method OnDayRollover(now: int, versions: seq<Schedule.Version>, reach: nat, loading: Schedule.Loading)
      returns (ok: bool)
      requires Valid() && forall v | v in versions :: v.id in schedule.database
      requires Partitions.FourDigitYear(Calendar.WeekStart(now))
               && Partitions.FourDigitYear(Calendar.WeekStart(now) + 42)
      modifies this`currentServiceDay, schedule, partitions`partitions
      ensures Valid() && currentServiceDay == now
      ensures ok <==> old(RollsOver(now, versions, reach, loading))
      ensures now == old(currentServiceDay) ==>
                schedule.State() == old(schedule.State()) && partitions.partitions == old(partitions.partitions)
      ensures now != old(currentServiceDay) ==>
                if old(CanPartition(now, reach)) then
                  && Schedule.IsCall(schedule.database, old(schedule.State()).(trips := map[]),
                       Schedule.Initialise(versions, now, loading), schedule.State())
                  && forall date | Calendar.WeekStart(now) <= date <= Calendar.WeekStart(now) + 48 ::
                       Partitions.HasPartition(partitions.partitions, date)
                else schedule.State() == old(schedule.State())
    {
      hide Schedule.IsInitialised, Schedule.CacheInv, PollsAreArchived, Archive.Inv, ApplyBatches, Batches,
        Partitions.AllWeeks, Partitions.IsEnsured, Partitions.CanEnsure, Partitions.FourDigitYear,
        Partitions.HasPartition, Schedule.IsCall, Schedule.Completes;
      if now == currentServiceDay {
        return true;
      }
      currentServiceDay := now;
      ghost var (before, rows) := (partitions.partitions, partitions.table.rows);
      ghost var cache := schedule.State();
      var created := partitions.EnsurePartitions(now, 6, 0, reach);
      ghost var start := Calendar.WeekStart(now) - 7 * 0;
      ghost var n :| Partitions.IsEnsured(before, rows, partitions.partitions, start, 7, reach, created, n);
      Partitions.EnsuredExactlyWhen(before, rows, partitions.partitions, start, 7, reach, created, n);
      if created.Failure? {
        return false;
      }
      Partitions.EnsuredHavePartitions(before, rows, partitions.partitions, now, 6, 0, reach, created, n);
      schedule.ClearTrips();
      assert schedule.State() == cache.(trips := map[]) by { Cleared(schedule.database, cache, schedule.State()); }
      ok := schedule.Initialise(versions, now, loading);
      InitialiseCompletes(schedule.database, cache.(trips := map[]), versions, now, loading, schedule.State());
    }

    // archive.write, by any of the loops. The table and the cache are untouched.
    method Record(record: Archive.Record, stamp: int, outcome: Archive.Outcome, opening: Archive.Opening,
                  acknowledged: bool) returns (written: bool)
      requires Valid()
      modifies archive
      ensures Valid()
      ensures archive.State() ==
                Archive.Step(old(archive.State()), Archive.Write(record, stamp, outcome, opening, acknowledged))
      ensures written <==> acknowledged && record.feed in archive.shards
      ensures written ==> Acknowledged(archive.State(), record)
    {
      hide PollsAreArchived, Archive.Inv, ApplyBatches, Batches, Schedule.CacheInv, Partitions.AllWeeks, Archive.Step,
        Acknowledged;
      ghost var before := archive.State();
      written := archive.Write(record, stamp, outcome, opening, acknowledged);
      WriteAcknowledges(before, record, stamp, outcome, opening, acknowledged);
      StillArchived(tz, decode, before, archive.State(), polls);
    }

    // The index a feed is matched against: the rollover, and the trips it asks for.
    // A poll of the same day neither rebinds the cache nor reads the calendar
    // again, whatever became of the rollover that began the day.
    method FindSchedule(feed: Feed, now: int, versions: seq<Schedule.Version>, reach: nat, loading: Schedule.Loading,
                        queries: bool) returns (index: Option<ScheduleIndex>)
      requires Valid() && forall v | v in versions :: v.id in schedule.database
      requires Partitions.FourDigitYear(Calendar.WeekStart(now))
               && Partitions.FourDigitYear(Calendar.WeekStart(now) + 42)
      modifies this`currentServiceDay, schedule, partitions`partitions
      ensures Valid() && currentServiceDay == now
      ensures index.Some? <==>
                && old(RollsOver(now, versions, reach, loading))
                && (queries || old(NeedsNoQuery(feed, now, versions)))
      ensures index.Some? ==> MatchedAgainst(schedule.database, schedule.State(), feed, index.value)
      ensures now == old(currentServiceDay) ==>
                schedule.State().(trips := map[]) == old(schedule.State()).(trips := map[])
    {
      hide Schedule.CacheInv, Schedule.IsCall, Partitions.FourDigitYear, ApplyBatches, Partitions.AllWeeks,
        PollsAreArchived, Batches, Partitions.HasPartition, Archive.Inv, Schedule.Completes, Partitions.CanEnsure,
        HasTrips, MatchedAgainst;
      ghost var (cache, sameDay) := (schedule.State(), now == currentServiceDay);
      var ok := OnDayRollover(now, versions, reach, loading);
      if !ok {
        return None;
      }
      ghost var c := schedule.State();
      if !sameDay {
        RolledCache(schedule.database, cache.(trips := map[]), versions, now, loading, c);
      }
      AskedAfterRollover(cache, c, feed, sameDay, versions);
      var ids := TripIds(feed.tripUpdates);
      var found := schedule.IndexFor(ids, queries);
      IndexKeepsBinding(schedule.database, c, Schedule.IdsOf(ids), queries || found.Success?, schedule.State());
      if found.Failure? {
        return None;
      }
      IndexIsMatched(schedule, feed, found.value);
      return Some(found.value);
    }

    // The rest of pollTripUpdates, once the payload has been decoded. A poll that
    // fails leaves the table as it was. One that succeeds applies the rows of its
    // feed, matched against the bound version with the dates the cache holds; the
    // table itself never refuses them.
    method StoreFeed(record: Archive.Record, feed: Feed, now: int, versions: seq<Schedule.Version>, reach: nat,
                     loading: Schedule.Loading, queries: bool, upserts: bool) returns (written: Option<UpsertResult>)
      requires Valid() && forall v | v in versions :: v.id in schedule.database
      requires decode(record) == Some(feed) && Acknowledged(archive.State(), record)
      requires Partitions.FourDigitYear(Calendar.WeekStart(now))
               && Partitions.FourDigitYear(Calendar.WeekStart(now) + 42)
      modifies this, schedule, partitions`partitions, partitions.table
      ensures Valid() && currentServiceDay == now
      ensures written.Some? <==>
                && old(RollsOver(now, versions, reach, loading))
                && (queries || old(NeedsNoQuery(feed, now, versions)))
                && upserts
      ensures written.None? ==> polls == old(polls) && partitions.table.rows == old(partitions.table.rows)
      ensures written.Some? ==>
                && |polls| == |old(polls)| + 1 && polls[..|polls| - 1] == old(polls)
                && var poll := polls[|polls| - 1];
                   && poll.record == record && poll.feed == feed
                   && partitions.table.rows == ApplyRows(old(partitions.table.rows), poll.rows)
                   && written.value.rowsWritten == |poll.rows|
                   && totalObservations == old(totalObservations) + written.value.rowsChanged
                   && MatchedAgainst(schedule.database, schedule.State(), poll.feed, poll.schedule)
      ensures now == old(currentServiceDay) ==>
                schedule.State().(trips := map[]) == old(schedule.State()).(trips := map[])
    {
      hide Schedule.CacheInv, Partitions.FourDigitYear, IsTransform, ApplyBatches, Counted, KeysDistinct, HasTrips,
        ApplyRows, Partitions.AllWeeks, PollsAreArchived, Batches, Archive.Inv, Schedule.Completes,
        Partitions.CanEnsure, Acknowledged, MatchedAgainst;
      var index := FindSchedule(feed, now, versions, reach, loading, queries);
      if index.None? {
        return None;
      }
      var rows, stats := TransformFeed(tz, feed, index.value);
      TransformOutput(tz, feed, index.value, rows, stats);
      if !upserts {
        return None;
      }
      var result := partitions.table.UpsertObservations(rows);
      written := Some(result.value);
      totalObservations := totalObservations + written.value.rowsChanged;
      var poll := Poll(record, feed, index.value, rows, stats);
      PollArchived(tz, decode, archive.State(), polls, poll);
      PollAppended(tz, base, polls, poll);
      polls := polls + [poll];
    }

    // pollTripUpdates: archived before it is decoded, and decoded before anything
    // else, so a poll reaches the table exactly when its record was acknowledged
    // and decodes, its rollover and its queries succeed, and the upsert does.
    method PollTripUpdates(record: Archive.Record, stamp: int, outcome: Archive.Outcome, opening: Archive.Opening,
                           acknowledged: bool, now: int, versions: seq<Schedule.Version>, reach: nat,
                           loading: Schedule.Loading, queries: bool, upserts: bool)
      returns (written: Option<UpsertResult>)
      requires Valid() && forall v | v in versions :: v.id in schedule.database
      requires Partitions.FourDigitYear(Calendar.WeekStart(now))
               && Partitions.FourDigitYear(Calendar.WeekStart(now) + 42)
      modifies this, archive, schedule, partitions`partitions, partitions.table
      ensures Valid()
      ensures archive.State() ==
                Archive.Step(old(archive.State()), Archive.Write(record, stamp, outcome, opening, acknowledged))
      ensures written.Some? <==>
                && acknowledged && record.feed in archive.shards
                && decode(record).Some?
                && old(RollsOver(now, versions, reach, loading))
                && (queries || old(NeedsNoQuery(decode(record).value, now, versions)))
                && upserts
      ensures written.None? ==> polls == old(polls) && partitions.table.rows == old(partitions.table.rows)
      ensures written.Some? ==>
                && |polls| == |old(polls)| + 1 && polls[..|polls| - 1] == old(polls)
                && var poll := polls[|polls| - 1];
                   && poll.record == record && decode(record) == Some(poll.feed)
                   && partitions.table.rows == ApplyRows(old(partitions.table.rows), poll.rows)
                   && written.value.rowsWritten == |poll.rows|
                   && totalObservations == old(totalObservations) + written.value.rowsChanged
                   && MatchedAgainst(schedule.database, schedule.State(), poll.feed, poll.schedule)
      ensures now == old(currentServiceDay) ==>
                schedule.State().(trips := map[]) == old(schedule.State()).(trips := map[])
    {
      hide Schedule.CacheInv, Partitions.FourDigitYear, ApplyBatches, Partitions.AllWeeks, PollsAreArchived, Batches,
        Archive.Inv, Archive.Step, Schedule.Completes, Partitions.CanEnsure, Acknowledged, MatchedAgainst, ApplyRows,
        HasTrips;
      var archived := Record(record, stamp, outcome, opening, acknowledged);
      if !archived {
        return None;
      }
      var decoded := decode(record);
      if decoded.None? {
        return None;
      }
      written := StoreFeed(record, decoded.value, now, versions, reach, loading, queries, upserts);
    }
  }
}
