// Rebuilding the observations from the archive: when replaying the final shards
// of a feed gives the table its polls left.
module Rebuild {
  import opened Wrappers
  import opened ServiceDay
  import opened Transform
  import opened Upsert
  import opened Pipeline
  import Archive
  import ArchiveHours
  import ArchiveLoss

  // -- The rows of a feed, as a function ------------------------------------------------------

  lemma WinnerIsUnique(entries: seq<Entry>, key: RowKey, i: nat, j: nat)
    requires Wins(entries, key, i) && Wins(entries, key, j)
    ensures i == j
  {
  }

  lemma WinnerIsEntry(entries: seq<Entry>, key: RowKey, i: nat)
    requires Wins(entries, key, i)
    ensures i < |entries|
  {
  }

  lemma {:induction false} WinnerExists(entries: seq<Entry>, key: RowKey)
    requires key in FirstAppearances(entries)
    ensures exists i: nat :: Wins(entries, key, i)
  {
    hide Wins;
    var n := |entries| - 1;
    var e := entries[n];
    assert entries == entries[..n] + [e];
    if key in FirstAppearances(entries[..n]) {
      WinnerExists(entries[..n], key);
      var i: nat :| Wins(entries[..n], key, i);
      assert i < n by { WinnerIsEntry(entries[..n], key, i); }
      assert IsWinner(entries[..n], key, entries[..n][i]);
      WinnerStep(entries[..n], key, entries[..n][i], e);
    } else {
      FirstWinner(entries[..n], e);
    }
  }

  ghost function WinningRow(entries: seq<Entry>, key: RowKey): ObservationRow
    requires key in FirstAppearances(entries)
  {
    WinnerExists(entries, key);
    var i: nat :| Wins(entries, key, i);
    entries[i].row
  }

  ghost function RowsOf(tz: int -> int, feed: Feed, schedule: ScheduleIndex): seq<ObservationRow> {
    var entries := Entries(tz, feed, schedule, feed.tripUpdates);
    var keys := FirstAppearances(entries);
    seq(|keys|, r requires 0 <= r < |keys| => WinningRow(entries, keys[r]))
  }

  // What the transform returns is that function of its input.
  lemma TransformedRows(tz: int -> int, feed: Feed, schedule: ScheduleIndex, rows: seq<ObservationRow>, stats: Stats)
    requires IsTransform(tz, feed, schedule, rows, stats)
    ensures rows == RowsOf(tz, feed, schedule)
  {
    hide Entries, CountTrips, CountedAll, FirstAppearances;
    var entries := Entries(tz, feed, schedule, feed.tripUpdates);
    forall r | 0 <= r < |rows|
      ensures rows[r] == RowsOf(tz, feed, schedule)[r]
    {
      var key := FirstAppearances(entries)[r];
      var i: nat :| Wins(entries, key, i) && rows[r] == entries[i].row;
      var j: nat :| Wins(entries, key, j) && WinningRow(entries, key) == entries[j].row;
      WinnerIsUnique(entries, key, i, j);
    }
  }

  lemma OneEntry(e: Entry)
    ensures FirstAppearances([e]) == [KeyOf(e.row)]
    ensures Wins([e], KeyOf(e.row), 0) && forall i: nat | Wins([e], KeyOf(e.row), i) :: i == 0
  {
    assert [e][..0] == [];
    assert FirstAppearances([]) == [];
  }

  lemma RowsOfOneStop(tz: int -> int, feed: Feed, schedule: ScheduleIndex)
    requires |feed.tripUpdates| == 1 && |feed.tripUpdates[0].stops| == 1 && Emits(feed.tripUpdates[0].stops[0])
    ensures RowsOf(tz, feed, schedule) ==
            [RowFor(Match(tz, feed, schedule, feed.tripUpdates[0]), feed.tripUpdates[0].stops[0])]
  {
    var (trips, stops) := (feed.tripUpdates, feed.tripUpdates[0].stops);
    var m := Match(tz, feed, schedule, trips[0]);
    MatchKeepsTrip(tz, feed, schedule, trips[0]);
    hide RowFor, Match;
    var e := Entry(RowFor(m, stops[0]), PreferenceOf(m.trip));
    assert stops[..0] == [] && trips[..0] == [];
    assert EntriesOfStops(m, []) == [] && EntriesOfStops(m, stops) == [] + [e];
    assert Entries(tz, feed, schedule, []) == [];
    assert Entries(tz, feed, schedule, trips) == [] + EntriesOfTrip(m);
    assert Entries(tz, feed, schedule, trips) == [e];
    OneEntry(e);
    var i: nat :| Wins([e], KeyOf(e.row), i) && WinningRow([e], KeyOf(e.row)) == [e][i].row;
  }

  // -- What matters of a schedule index ---------------------------------------------------------

  // A schedule that can anchor a trip. One that runs on no date, or has no stop
  // times, matches nothing, and the trip might as well be absent.
  function Effective(schedule: ScheduleIndex, tripId: string): Option<TripSchedule> {
    if tripId in schedule && schedule[tripId].activeDates != {} && schedule[tripId].arrivalSeconds != map[]
    then Some(schedule[tripId]) else None
  }

  ghost predicate MatchAlike(a: ScheduleIndex, b: ScheduleIndex) {
    forall tripId :: Effective(a, tripId) == Effective(b, tripId)
  }

  lemma NeverRuns(tz: int -> int, observed: int, seconds: int, runsOn: int -> bool)
    requires forall date :: !runsOn(date)
    ensures Resolve(tz, observed, seconds, runsOn) == None
  {
    hide Distance, LocalDate, Nearest;
    NearestIsFirstNearest(tz, Candidates(tz, observed), seconds, observed, runsOn);
  }

  lemma {:induction false} NothingAnchors(tz: int -> int, stops: seq<StopUpdate>, schedule: TripSchedule)
    requires schedule.activeDates == {} || schedule.arrivalSeconds == map[]
    ensures Anchor(tz, stops, schedule) == None
  {
    if stops != [] {
      var stop := stops[0];
      if stop.arrivalMs.Some? && stop.stopSequence in schedule.arrivalSeconds {
        NeverRuns(tz, stop.arrivalMs.value, schedule.arrivalSeconds[stop.stopSequence],
          date => date in schedule.activeDates);
      }
      hide Resolve;
      NothingAnchors(tz, stops[1..], schedule);
    }
  }

  // The date and the usable schedule of a trip come from its effective schedule.
  lemma EffectiveDecides(tz: int -> int, feed: Feed, schedule: ScheduleIndex, trip: TripUpdate)
    ensures var m := Match(tz, feed, schedule, trip);
            && m.resolution == ResolveTrip(tz, trip, Effective(schedule, trip.tripId), feed)
            && m.Usable() == if m.resolution.anchored then Effective(schedule, trip.tripId) else None
  {
    hide Anchor, LocalDate;
    if trip.tripId in schedule && Effective(schedule, trip.tripId).None? {
      NothingAnchors(tz, trip.stops, schedule[trip.tripId]);
    }
  }

  lemma SameRow(a: Matched, b: Matched, stop: StopUpdate)
    requires Emits(stop) && a.tz == b.tz && a.feed == b.feed && a.trip == b.trip
    requires a.resolution == b.resolution && a.Usable() == b.Usable()
    ensures RowFor(a, stop) == RowFor(b, stop)
  {
  }

  lemma {:induction false} SameEntriesOfStops(a: Matched, b: Matched, stops: seq<StopUpdate>)
    requires a.tz == b.tz && a.feed == b.feed && a.trip == b.trip
    requires a.resolution == b.resolution && a.Usable() == b.Usable()
    ensures EntriesOfStops(a, stops) == EntriesOfStops(b, stops)
  {
    if stops != [] {
      hide RowFor, Emits;
      SameEntriesOfStops(a, b, stops[..|stops| - 1]);
      if Emits(stops[|stops| - 1]) {
        SameRow(a, b, stops[|stops| - 1]);
      }
    }
  }

  lemma {:induction false} SameEntries(tz: int -> int, feed: Feed, a: ScheduleIndex, b: ScheduleIndex,
                                       trips: seq<TripUpdate>)
    requires MatchAlike(a, b)
    ensures Entries(tz, feed, a, trips) == Entries(tz, feed, b, trips)
  {
    if trips != [] {
      hide ResolveTrip, EntriesOfStops;
      var n := |trips| - 1;
      SameEntries(tz, feed, a, b, trips[..n]);
      EffectiveDecides(tz, feed, a, trips[n]);
      EffectiveDecides(tz, feed, b, trips[n]);
      SameEntriesOfStops(Match(tz, feed, a, trips[n]), Match(tz, feed, b, trips[n]), trips[n].stops);
    }
  }

  lemma SameRows(tz: int -> int, feed: Feed, a: ScheduleIndex, b: ScheduleIndex)
    requires MatchAlike(a, b)
    ensures RowsOf(tz, feed, a) == RowsOf(tz, feed, b)
  {
    hide Entries, MatchAlike;
    SameEntries(tz, feed, a, b, feed.tripUpdates);
  }

  // A feed that reports one stop of one trip, at its scheduled instant on a date.
  function Probe(tz: int -> int, tripId: string, date: int, sequence: nat, seconds: int): Feed {
    var stop := StopUpdate(sequence, "", 0, Some(ScheduledInstant(tz, date, seconds)), None);
    Feed(0, [TripUpdate(tripId, false, "", None, None, [stop])])
  }

  ghost predicate InRange(schedule: ScheduleIndex) {
    forall tripId, sequence | tripId in schedule && sequence in schedule[tripId].arrivalSeconds ::
      0 <= schedule[tripId].arrivalSeconds[sequence] <= LAST_SCHEDULED_SECOND
  }

  lemma ProbeIsMatched(tz: int -> int, schedule: ScheduleIndex, tripId: string, date: int, sequence: nat)
    requires RegularZone(tz) && InRange(schedule) && tripId in schedule
    requires date in schedule[tripId].activeDates && sequence in schedule[tripId].arrivalSeconds
    ensures var feed := Probe(tz, tripId, date, sequence, schedule[tripId].arrivalSeconds[sequence]);
            var row := RowFor(Match(tz, feed, schedule, feed.tripUpdates[0]), feed.tripUpdates[0].stops[0]);
            && row.serviceDate == date && row.feedVersionId == Some(schedule[tripId].feedVersionId)
            && row.scheduledArrivalMs == Some(ScheduledInstant(tz, date, schedule[tripId].arrivalSeconds[sequence]))
  {
    var seconds := schedule[tripId].arrivalSeconds[sequence];
    var feed := Probe(tz, tripId, date, sequence, seconds);
    ResolvesToScheduledDay(tz, date, seconds, ScheduledInstant(tz, date, seconds),
      d => d in schedule[tripId].activeDates);
    hide Resolve, RegularZone, ScheduledInstant, LocalDate, LocalHour;
  }

  lemma {:induction false} AnchorRuns(tz: int -> int, stops: seq<StopUpdate>, schedule: TripSchedule)
    ensures Anchor(tz, stops, schedule).Some? ==> Anchor(tz, stops, schedule).value in schedule.activeDates
  {
    if stops != [] {
      var stop := stops[0];
      if stop.arrivalMs.Some? && stop.stopSequence in schedule.arrivalSeconds {
        var observed, seconds := stop.arrivalMs.value, schedule.arrivalSeconds[stop.stopSequence];
        hide Distance, LocalDate, Nearest;
        NearestIsFirstNearest(tz, Candidates(tz, observed), seconds, observed, date => date in schedule.activeDates);
      }
      AnchorRuns(tz, stops[1..], schedule);
    }
  }

  // If another index gives the probe the same row, it has the date, the stop's
  // seconds and the version too.
  lemma ProbeTells(tz: int -> int, a: ScheduleIndex, b: ScheduleIndex, tripId: string, date: int, sequence: nat)
    requires RegularZone(tz) && InRange(a) && tripId in a
    requires date in a[tripId].activeDates && sequence in a[tripId].arrivalSeconds
    requires var feed := Probe(tz, tripId, date, sequence, a[tripId].arrivalSeconds[sequence]);
             var (trip, stop) := (feed.tripUpdates[0], feed.tripUpdates[0].stops[0]);
             RowFor(Match(tz, feed, a, trip), stop) == RowFor(Match(tz, feed, b, trip), stop)
    ensures tripId in b && date in b[tripId].activeDates && b[tripId].feedVersionId == a[tripId].feedVersionId
    ensures sequence in b[tripId].arrivalSeconds
            && b[tripId].arrivalSeconds[sequence] == a[tripId].arrivalSeconds[sequence]
  {
    var seconds := a[tripId].arrivalSeconds[sequence];
    var feed := Probe(tz, tripId, date, sequence, seconds);
    ProbeIsMatched(tz, a, tripId, date, sequence);
    hide Resolve, RegularZone, LocalDate, LocalHour, ServiceDayStart;
    assert tripId in b && sequence in b[tripId].arrivalSeconds;
    AnchorRuns(tz, feed.tripUpdates[0].stops, b[tripId]);
  }

  ghost predicate SameProbe(tz: int -> int, a: ScheduleIndex, b: ScheduleIndex, tripId: string, date: int,
                            sequence: nat)
    requires tripId in a && sequence in a[tripId].arrivalSeconds
  {
    var feed := Probe(tz, tripId, date, sequence, a[tripId].arrivalSeconds[sequence]);
    RowsOf(tz, feed, a) == RowsOf(tz, feed, b)
  }

  // No probe of the trip, built from the first index, tells the two apart.
  ghost predicate ProbesAgree(tz: int -> int, a: ScheduleIndex, b: ScheduleIndex, tripId: string) {
    tripId in a ==>
      forall date, sequence | date in a[tripId].activeDates && sequence in a[tripId].arrivalSeconds ::
        SameProbe(tz, a, b, tripId, date, sequence)
  }

  lemma SameProbeTells(tz: int -> int, a: ScheduleIndex, b: ScheduleIndex, tripId: string, date: int, sequence: nat)
    requires RegularZone(tz) && InRange(a) && tripId in a
    requires date in a[tripId].activeDates && sequence in a[tripId].arrivalSeconds
    requires SameProbe(tz, a, b, tripId, date, sequence)
    ensures tripId in b && date in b[tripId].activeDates && b[tripId].feedVersionId == a[tripId].feedVersionId
    ensures sequence in b[tripId].arrivalSeconds
            && b[tripId].arrivalSeconds[sequence] == a[tripId].arrivalSeconds[sequence]
  {
    var feed := Probe(tz, tripId, date, sequence, a[tripId].arrivalSeconds[sequence]);
    assert |feed.tripUpdates| == 1 && |feed.tripUpdates[0].stops| == 1 && Emits(feed.tripUpdates[0].stops[0]);
    RowsOfOneStop(tz, feed, a);
    RowsOfOneStop(tz, feed, b);
    hide RegularZone, RowsOf, RowFor, Match, Probe;
    ProbeTells(tz, a, b, tripId, date, sequence);
  }

  lemma SomeStop(arrivals: map<nat, int>)
    requires arrivals != map[]
    ensures exists k: nat :: k in arrivals
  {
  }

  lemma SomeElement<T>(s: set<T>) returns (x: T)
    requires s != {}
    ensures x in s
  {
    x :| x in s;
  }

  lemma EffectiveIsShared(tz: int -> int, a: ScheduleIndex, b: ScheduleIndex, tripId: string)
    requires RegularZone(tz) && InRange(a) && Effective(a, tripId).Some? && ProbesAgree(tz, a, b, tripId)
    ensures Effective(b, tripId).Some?
    ensures a[tripId].feedVersionId == b[tripId].feedVersionId && a[tripId].activeDates <= b[tripId].activeDates
    ensures forall k | k in a[tripId].arrivalSeconds ::
              k in b[tripId].arrivalSeconds && b[tripId].arrivalSeconds[k] == a[tripId].arrivalSeconds[k]
  {
    hide RegularZone, SameProbe;
    var s := a[tripId];
    var date0 := SomeElement(s.activeDates);
    SomeStop(s.arrivalSeconds);
    var k0: nat :| k0 in s.arrivalSeconds;
    SameProbeTells(tz, a, b, tripId, date0, k0);
    forall date | date in s.activeDates
      ensures date in b[tripId].activeDates
    {
      SameProbeTells(tz, a, b, tripId, date, k0);
    }
    forall k | k in s.arrivalSeconds
      ensures k in b[tripId].arrivalSeconds && b[tripId].arrivalSeconds[k] == s.arrivalSeconds[k]
    {
      SameProbeTells(tz, a, b, tripId, date0, k);
    }
  }

  lemma ProbesDecide(tz: int -> int, a: ScheduleIndex, b: ScheduleIndex, tripId: string)
    requires RegularZone(tz) && InRange(a) && InRange(b) && ProbesAgree(tz, a, b, tripId)
             && ProbesAgree(tz, b, a, tripId)
    ensures Effective(a, tripId) == Effective(b, tripId)
  {
    hide RegularZone, ProbesAgree, InRange;
    if Effective(a, tripId).Some? {
      EffectiveIsShared(tz, a, b, tripId);
    }
    if Effective(b, tripId).Some? {
      EffectiveIsShared(tz, b, a, tripId);
    }
    if Effective(a, tripId).Some? {
      assert a[tripId].activeDates == b[tripId].activeDates;
      assert a[tripId].arrivalSeconds == b[tripId].arrivalSeconds;
    }
  }

  // Two indexes that are not alike are told apart by a feed with one stop.
  lemma ToldApart(tz: int -> int, a: ScheduleIndex, b: ScheduleIndex) returns (feed: Feed)
    requires RegularZone(tz) && InRange(a) && InRange(b) && !MatchAlike(a, b)
    ensures |feed.tripUpdates| == 1 && |feed.tripUpdates[0].stops| == 1 && Emits(feed.tripUpdates[0].stops[0])
    ensures RowsOf(tz, feed, a) != RowsOf(tz, feed, b)
  {
    hide RegularZone, InRange, RowsOf;
    var tripId :| Effective(a, tripId) != Effective(b, tripId);
    if ProbesAgree(tz, a, b, tripId) && ProbesAgree(tz, b, a, tripId) {
      ProbesDecide(tz, a, b, tripId);
    }
    if !ProbesAgree(tz, a, b, tripId) {
      var date, sequence :| date in a[tripId].activeDates && sequence in a[tripId].arrivalSeconds
        && !SameProbe(tz, a, b, tripId, date, sequence);
      feed := Probe(tz, tripId, date, sequence, a[tripId].arrivalSeconds[sequence]);
    } else {
      var date, sequence :| date in b[tripId].activeDates && sequence in b[tripId].arrivalSeconds
        && !SameProbe(tz, b, a, tripId, date, sequence);
      feed := Probe(tz, tripId, date, sequence, b[tripId].arrivalSeconds[sequence]);
    }
  }

  // Two indexes match every feed alike exactly when each trip's effective
  // schedules are equal.
  lemma MatchAlikeExactlyWhen(tz: int -> int, a: ScheduleIndex, b: ScheduleIndex)
    requires RegularZone(tz) && InRange(a) && InRange(b)
    ensures (forall feed :: RowsOf(tz, feed, a) == RowsOf(tz, feed, b)) <==> MatchAlike(a, b)
  {
    hide RegularZone, InRange, RowsOf, MatchAlike;
    if MatchAlike(a, b) {
      forall feed
        ensures RowsOf(tz, feed, a) == RowsOf(tz, feed, b)
      {
        SameRows(tz, feed, a, b);
      }
    } else {
      var feed := ToldApart(tz, a, b);
    }
  }

  // -- The live table and the rebuilt one ---------------------------------------------------------

  type Decoder = Archive.Record -> Option<Feed>

  // What a record adds: nothing if it does not decode.
  ghost function Contribution(tz: int -> int, decode: Decoder, record: Archive.Record,
                              schedule: ScheduleIndex): seq<ObservationRow> {
    if decode(record).None? then [] else RowsOf(tz, decode(record).value, schedule)
  }

  // The polls that reached the table, in order, each with the index it used.
  ghost function Live(tz: int -> int, decode: Decoder, records: seq<Archive.Record>, upserted: Archive.Record -> bool,
                      used: Archive.Record -> ScheduleIndex): Rows
  {
    if records == [] then map[]
    else
      var last := records[|records| - 1];
      var before := Live(tz, decode, records[..|records| - 1], upserted, used);
      if upserted(last) then ApplyBatch(before, Contribution(tz, decode, last, used(last))) else before
  }

  // Records replayed, in order, each with the index then current.
  ghost function Rebuilt(tz: int -> int, decode: Decoder, records: seq<Archive.Record>,
                         replayed: Archive.Record -> ScheduleIndex): Rows
  {
    if records == [] then map[]
    else
      var last := records[|records| - 1];
      ApplyBatch(Rebuilt(tz, decode, records[..|records| - 1], replayed),
        Contribution(tz, decode, last, replayed(last)))
  }

  ghost function RebuiltFrom(tz: int -> int, decode: Decoder, w: Archive.World, keys: seq<Archive.ShardKey>,
                             records: seq<Archive.Record>, replayed: Archive.Record -> ScheduleIndex): Rows
  {
    Rebuilt(tz, decode, ArchiveHours.RecoveredOf(w, keys, records), replayed)
  }

  lemma RebuiltStep(tz: int -> int, decode: Decoder, w: Archive.World, keys: seq<Archive.ShardKey>,
                    records: seq<Archive.Record>, last: Archive.Record, replayed: Archive.Record -> ScheduleIndex)
    ensures var before := RebuiltFrom(tz, decode, w, keys, records, replayed);
            RebuiltFrom(tz, decode, w, keys, records + [last], replayed) ==
            if ArchiveHours.Recovered(w, keys, last)
              then ApplyBatch(before, Contribution(tz, decode, last, replayed(last)))
            else before
  {
    hide ArchiveHours.Recovered, ApplyBatch, Contribution;
    var kept := ArchiveHours.RecoveredOf(w, keys, records);
    assert (records + [last])[..|records|] == records;
    assert (kept + [last])[..|kept|] == kept && kept + [] == kept;
  }

  lemma LiveStep(tz: int -> int, decode: Decoder, records: seq<Archive.Record>, last: Archive.Record,
                 upserted: Archive.Record -> bool, used: Archive.Record -> ScheduleIndex)
    ensures var before := Live(tz, decode, records, upserted, used);
            Live(tz, decode, records + [last], upserted, used) ==
            if upserted(last) then ApplyBatch(before, Contribution(tz, decode, last, used(last))) else before
  {
    hide ApplyBatch, Contribution;
    assert (records + [last])[..|records|] == records;
  }

  // A record is in the archive exactly if its poll reached the table, which
  // matched it against an index that is like the replay's.
  ghost predicate SameFate(w: Archive.World, keys: seq<Archive.ShardKey>, record: Archive.Record,
                           upserted: Archive.Record -> bool, used: Archive.Record -> ScheduleIndex,
                           replayed: Archive.Record -> ScheduleIndex)
  {
    && (upserted(record) <==> ArchiveHours.Recovered(w, keys, record))
    && (upserted(record) ==> MatchAlike(used(record), replayed(record)))
  }

  lemma {:induction false} SameFateSameTable(tz: int -> int, decode: Decoder, w: Archive.World,
                                             keys: seq<Archive.ShardKey>,
                                             records: seq<Archive.Record>, upserted: Archive.Record -> bool,
                                             used: Archive.Record -> ScheduleIndex,
                                             replayed: Archive.Record -> ScheduleIndex)
    requires forall record | record in records :: SameFate(w, keys, record, upserted, used, replayed)
    ensures Live(tz, decode, records, upserted, used) == RebuiltFrom(tz, decode, w, keys, records, replayed)
  {
    hide ApplyBatch, RowsOf, MatchAlike, ArchiveHours.Recovered;
    if records != [] {
      var n := |records| - 1;
      var last := records[n];
      assert records == records[..n] + [last] && last in records;
      SameFateSameTable(tz, decode, w, keys, records[..n], upserted, used, replayed);
      RebuiltStep(tz, decode, w, keys, records[..n], last, replayed);
      LiveStep(tz, decode, records[..n], last, upserted, used);
      assert SameFate(w, keys, last, upserted, used, replayed);
      if upserted(last) && decode(last).Some? {
        SameRows(tz, decode(last).value, used(last), replayed(last));
      }
    }
  }

  // -- Only one record decodes --------------------------------------------------------------------

  function Only(record: Archive.Record, feed: Feed): Decoder {
    r => if r == record then Some(feed) else None
  }

  lemma EmptyBatch(rows: Rows)
    ensures ApplyBatch(rows, []) == rows
  {
  }

  ghost predicate Distinct(records: seq<Archive.Record>) {
    forall i, j | 0 <= i < j < |records| :: records[i] != records[j]
  }

  lemma {:induction false} OnlyLive(tz: int -> int, feed: Feed, records: seq<Archive.Record>, i: nat,
                                    upserted: Archive.Record -> bool, used: Archive.Record -> ScheduleIndex, m: nat)
    requires Distinct(records) && i < |records| && m <= |records|
    ensures Live(tz, Only(records[i], feed), records[..m], upserted, used) ==
            if i < m && upserted(records[i]) then ApplyBatch(map[], RowsOf(tz, feed, used(records[i]))) else map[]
  {
    hide ApplyBatch, RowsOf;
    if m > 0 {
      var last := records[m - 1];
      assert records[..m] == records[..m - 1] + [last];
      OnlyLive(tz, feed, records, i, upserted, used, m - 1);
      LiveStep(tz, Only(records[i], feed), records[..m - 1], last, upserted, used);
      EmptyBatch(Live(tz, Only(records[i], feed), records[..m - 1], upserted, used));
    }
  }

  lemma {:induction false} OnlyRebuilt(tz: int -> int, feed: Feed, w: Archive.World, keys: seq<Archive.ShardKey>,
                                       records: seq<Archive.Record>, i: nat,
                                       replayed: Archive.Record -> ScheduleIndex, m: nat)
    requires Distinct(records) && i < |records| && m <= |records|
    ensures RebuiltFrom(tz, Only(records[i], feed), w, keys, records[..m], replayed) ==
            if i < m && ArchiveHours.Recovered(w, keys, records[i])
              then ApplyBatch(map[], RowsOf(tz, feed, replayed(records[i])))
            else map[]
  {
    hide ApplyBatch, RowsOf, ArchiveHours.Recovered;
    if m > 0 {
      var last := records[m - 1];
      assert records[..m] == records[..m - 1] + [last];
      OnlyRebuilt(tz, feed, w, keys, records, i, replayed, m - 1);
      RebuiltStep(tz, Only(records[i], feed), w, keys, records[..m - 1], last, replayed);
      EmptyBatch(RebuiltFrom(tz, Only(records[i], feed), w, keys, records[..m - 1], replayed));
    }
  }

  lemma OneRowTable(row: ObservationRow)
    ensures ApplyBatch(map[], [row]) == map[KeyOf(row) := Inserted(row)]
  {
    assert [row][..0] == [];
    assert ApplyRows(map[], []) == map[];
  }

  lemma OneRowTablesTell(a: ObservationRow, b: ObservationRow)
    ensures ApplyBatch(map[], [a]) == ApplyBatch(map[], [b]) <==> a == b
    ensures ApplyBatch(map[], [a]) != map[]
  {
    OneRowTable(a);
    OneRowTable(b);
    hide ApplyBatch;
    var (x, y) := (map[KeyOf(a) := Inserted(a)], map[KeyOf(b) := Inserted(b)]);
    assert KeyOf(a) in x;
    if x == y {
      assert KeyOf(a) in y;
      assert x[KeyOf(a)] == Inserted(a) && y[KeyOf(a)] == Inserted(b);
    }
  }

  lemma OneStopTable(tz: int -> int, feed: Feed, a: ScheduleIndex, b: ScheduleIndex)
    requires |feed.tripUpdates| == 1 && |feed.tripUpdates[0].stops| == 1 && Emits(feed.tripUpdates[0].stops[0])
    ensures ApplyBatch(map[], RowsOf(tz, feed, a)) == ApplyBatch(map[], RowsOf(tz, feed, b)) <==>
            RowsOf(tz, feed, a) == RowsOf(tz, feed, b)
    ensures ApplyBatch(map[], RowsOf(tz, feed, a)) != map[]
  {
    RowsOfOneStop(tz, feed, a);
    RowsOfOneStop(tz, feed, b);
    hide RowsOf, RowFor, Match, ApplyBatch, Emits;
    var trip, stop := feed.tripUpdates[0], feed.tripUpdates[0].stops[0];
    OneRowTablesTell(RowFor(Match(tz, feed, a, trip), stop), RowFor(Match(tz, feed, b, trip), stop));
  }

  lemma ProbeReports(tz: int -> int)
    ensures var feed := Probe(tz, "", 0, 0, 0);
            |feed.tripUpdates| == 1 && |feed.tripUpdates[0].stops| == 1 && Emits(feed.tripUpdates[0].stops[0])
  {
  }

  // A record that fares differently shows in the table for some contents.
  lemma DifferentFateShows(tz: int -> int, w: Archive.World, keys: seq<Archive.ShardKey>, records: seq<Archive.Record>,
                           i: nat, upserted: Archive.Record -> bool, used: Archive.Record -> ScheduleIndex,
                           replayed: Archive.Record -> ScheduleIndex) returns (decode: Decoder)
    requires RegularZone(tz) && Distinct(records) && i < |records|
    requires InRange(used(records[i])) && InRange(replayed(records[i]))
    requires !SameFate(w, keys, records[i], upserted, used, replayed)
    ensures Live(tz, decode, records, upserted, used) != RebuiltFrom(tz, decode, w, keys, records, replayed)
  {
    hide RegularZone, InRange, RowsOf, ApplyBatch, MatchAlike, ArchiveHours.Recovered, Live, RebuiltFrom, Emits;
    var record := records[i];
    var feed: Feed;
    if upserted(record) && ArchiveHours.Recovered(w, keys, record) {
      feed := ToldApart(tz, used(record), replayed(record));
    } else {
      feed := Probe(tz, "", 0, 0, 0);
      ProbeReports(tz);
    }
    decode := Only(record, feed);
    OnlyLive(tz, feed, records, i, upserted, used, |records|);
    OnlyRebuilt(tz, feed, w, keys, records, i, replayed, |records|);
    assert records[..|records|] == records;
    OneStopTable(tz, feed, used(record), replayed(record));
    OneStopTable(tz, feed, replayed(record), used(record));
  }

  lemma IncreasingAreDistinct(records: seq<Archive.Record>)
    requires ArchiveHours.TimesIncrease(records)
    ensures Distinct(records)
  {
    forall i, j | 0 <= i < j < |records|
      ensures records[i] != records[j]
    {
      assert records[i].fetchedAtMs < records[j].fetchedAtMs;
    }
  }

  // Replaying a feed's final shards, hour by hour, rebuilds the table its polls
  // left, whatever their records hold, if and only if the records those shards
  // hold are exactly those whose upsert succeeded, and each was matched against an
  // index that says the same of every trip as the one it is replayed with.
  lemma RebuildIsExactExactlyWhen(tz: int -> int, compression: Archive.Compression, events: seq<Archive.Event>,
                                  feed: string, keys: seq<Archive.ShardKey>, upserted: Archive.Record -> bool,
                                  used: Archive.Record -> ScheduleIndex, replayed: Archive.Record -> ScheduleIndex)
    requires RegularZone(tz)
    requires forall r | r in ArchiveHours.Attempts(events, feed) :: InRange(used(r)) && InRange(replayed(r))
    requires ArchiveHours.TimesIncrease(ArchiveHours.Attempts(events, feed)) && ArchiveHours.InHourOrder(keys, feed)
    ensures var w := Archive.Run(Archive.Start(compression), events);
            var records := ArchiveHours.Attempts(events, feed);
            (forall decode: Decoder ::
               Live(tz, decode, records, upserted, used) == Rebuilt(tz, decode, ArchiveHours.Replay(w, keys), replayed))
            <==> forall record | record in records :: SameFate(w, keys, record, upserted, used, replayed)
  {
    hide RegularZone, InRange, Live, Rebuilt, SameFate, Archive.Run, Archive.Inv, ArchiveHours.Attempts,
      ArchiveHours.TimesIncrease, ArchiveHours.Replay, ArchiveHours.RecoveredOf, ArchiveHours.InHourOrder, Distinct;
    var w := Archive.Run(Archive.Start(compression), events);
    var records := ArchiveHours.Attempts(events, feed);
    ArchiveHours.ReplayIsTheRecoveredPolls(compression, events, feed, keys);
    IncreasingAreDistinct(records);
    if forall record | record in records :: SameFate(w, keys, record, upserted, used, replayed) {
      forall decode: Decoder
        ensures Live(tz, decode, records, upserted, used) == Rebuilt(tz, decode, ArchiveHours.Replay(w, keys), replayed)
      {
        SameFateSameTable(tz, decode, w, keys, records, upserted, used, replayed);
      }
    } else {
      var i: nat :| i < |records| && !SameFate(w, keys, records[i], upserted, used, replayed);
      var decode := DifferentFateShows(tz, w, keys, records, i, upserted, used, replayed);
      assert Live(tz, decode, records, upserted, used) != Rebuilt(tz, decode, ArchiveHours.Replay(w, keys), replayed);
    }
  }

  // -- The worker's own table ---------------------------------------------------------------------

  function Records(polls: seq<Poll>): (records: seq<Archive.Record>)
    ensures |records| == |polls| && forall i | 0 <= i < |polls| :: records[i] == polls[i].record
  {
    seq(|polls|, i requires 0 <= i < |polls| => polls[i].record)
  }

  function UpsertedBy(polls: seq<Poll>): Archive.Record -> bool {
    record => record in Records(polls)
  }

  function IndexUsed(polls: seq<Poll>, record: Archive.Record): ScheduleIndex {
    if polls == [] then map[]
    else if polls[|polls| - 1].record == record then polls[|polls| - 1].schedule
    else IndexUsed(polls[..|polls| - 1], record)
  }

  function UsedBy(polls: seq<Poll>): Archive.Record -> ScheduleIndex {
    record => IndexUsed(polls, record)
  }

  // The polls are what became of those records that were upserted.
  ghost predicate AreUpserts(tz: int -> int, decode: Decoder, records: seq<Archive.Record>, polls: seq<Poll>,
                             upserted: Archive.Record -> bool, used: Archive.Record -> ScheduleIndex)
  {
    && ArchiveHours.TimesIncrease(records) && ArchiveHours.TimesIncrease(Records(polls))
    && (forall record | record in records :: upserted(record) <==> record in Records(polls))
    && forall poll | poll in polls ::
         && poll.record in records && used(poll.record) == poll.schedule
         && IsPoll(tz, poll) && decode(poll.record) == Some(poll.feed)
  }

  lemma SomeMember<T>(s: seq<T>)
    ensures s == [] || exists x :: x in s
  {
    if s != [] {
      assert s[0] in s;
    }
  }

  lemma NothingUpserted(tz: int -> int, decode: Decoder, polls: seq<Poll>,
                        upserted: Archive.Record -> bool, used: Archive.Record -> ScheduleIndex)
    requires AreUpserts(tz, decode, [], polls, upserted, used)
    ensures polls == []
  {
    hide IsPoll;
    SomeMember(polls);
  }

  // The last record, if it was upserted, is the last poll's.
  lemma LastUpsert(tz: int -> int, decode: Decoder, records: seq<Archive.Record>, polls: seq<Poll>,
                   upserted: Archive.Record -> bool, used: Archive.Record -> ScheduleIndex)
    requires records != [] && AreUpserts(tz, decode, records, polls, upserted, used) && upserted(records[|records| - 1])
    ensures polls != []
    ensures var (n, poll) := (|records| - 1, polls[|polls| - 1]);
            && poll.record == records[n] && used(records[n]) == poll.schedule
            && IsPoll(tz, poll) && decode(records[n]) == Some(poll.feed)
            && AreUpserts(tz, decode, records[..n], polls[..|polls| - 1], upserted, used)
  {
    hide IsPoll, ArchiveHours.TimesIncrease;
    var (n, m) := (|records| - 1, |polls| - 1);
    assert records[n] in records && records[n] in Records(polls);
    assert polls != [];
    var (last, done) := (polls[m], Records(polls));
    assert last in polls && done[m] == last.record;
    ArchiveHours.SplitLast(records);
    ArchiveHours.SplitLast(done);
    assert last.record == records[n];
    assert Records(polls[..m]) == done[..m];
    assert polls == polls[..m] + [last];
    forall poll | poll in polls[..m]
      ensures poll.record in records[..n]
    {
      var i :| 0 <= i < m && polls[i] == poll;
      assert done[i] in done[..m] && done[i] == poll.record;
    }
  }

  lemma NotUpserted(tz: int -> int, decode: Decoder, records: seq<Archive.Record>, polls: seq<Poll>,
                    upserted: Archive.Record -> bool, used: Archive.Record -> ScheduleIndex)
    requires records != [] && AreUpserts(tz, decode, records, polls, upserted, used)
             && !upserted(records[|records| - 1])
    ensures AreUpserts(tz, decode, records[..|records| - 1], polls, upserted, used)
  {
    hide IsPoll, ArchiveHours.TimesIncrease;
    var n := |records| - 1;
    ArchiveHours.SplitLast(records);
    forall poll | poll in polls
      ensures poll.record in records[..n]
    {
      var i :| 0 <= i < |polls| && polls[i] == poll;
      assert Records(polls)[i] == poll.record;
    }
  }

  lemma {:induction false} PollsAreLive(tz: int -> int, decode: Decoder, records: seq<Archive.Record>, polls: seq<Poll>,
                                        upserted: Archive.Record -> bool, used: Archive.Record -> ScheduleIndex)
    requires AreUpserts(tz, decode, records, polls, upserted, used)
    ensures ApplyBatches(map[], Batches(polls)) == Live(tz, decode, records, upserted, used)
  {
    hide AreUpserts, ApplyBatch, IsTransform, RowsOf;
    if records == [] {
      NothingUpserted(tz, decode, polls, upserted, used);
    } else {
      var (n, m) := (|records| - 1, |polls| - 1);
      var last := records[n];
      assert records == records[..n] + [last];
      LiveStep(tz, decode, records[..n], last, upserted, used);
      if upserted(last) {
        LastUpsert(tz, decode, records, polls, upserted, used);
        PollsAreLive(tz, decode, records[..n], polls[..m], upserted, used);
        var batches := Batches(polls[..m]);
        assert (batches + [polls[m].rows])[..|batches|] == batches;
        TransformedRows(tz, polls[m].feed, polls[m].schedule, polls[m].rows, polls[m].stats);
      } else {
        NotUpserted(tz, decode, records, polls, upserted, used);
        PollsAreLive(tz, decode, records[..n], polls, upserted, used);
      }
    }
  }

  lemma EarlierRecord(polls: seq<Poll>, poll: Poll)
    requires polls != [] && ArchiveHours.TimesIncrease(Records(polls)) && poll in polls[..|polls| - 1]
    ensures ArchiveHours.TimesIncrease(Records(polls[..|polls| - 1])) && poll.record != polls[|polls| - 1].record
  {
    hide ArchiveHours.TimesIncrease;
    var (n, done) := (|polls| - 1, Records(polls));
    ArchiveHours.SplitLast(done);
    assert Records(polls[..n]) == done[..n];
    var i :| 0 <= i < n && polls[i] == poll;
    assert done[i] in done[..n];
  }

  lemma {:induction false} UsedByPoll(polls: seq<Poll>, poll: Poll)
    requires ArchiveHours.TimesIncrease(Records(polls)) && poll in polls
    ensures UsedBy(polls)(poll.record) == poll.schedule
  {
    hide ArchiveHours.TimesIncrease;
    var n := |polls| - 1;
    assert polls == polls[..n] + [polls[n]];
    if poll in polls[..n] {
      EarlierRecord(polls, poll);
      UsedByPoll(polls[..n], poll);
    }
  }

  lemma NoBatches(rows: Rows)
    ensures ApplyBatches(rows, Batches([])) == rows
  {
  }

  lemma BatchesStep(rows: Rows, polls: seq<Poll>, poll: Poll)
    ensures ApplyBatches(rows, Batches(polls + [poll])) == ApplyBatch(ApplyBatches(rows, Batches(polls)), poll.rows)
  {
    hide ApplyBatch;
    var batches := Batches(polls);
    assert (polls + [poll])[..|polls|] == polls && (batches + [poll.rows])[..|batches|] == batches;
  }

  lemma {:induction false} PollsConcat(rows: Rows, earlier: seq<Poll>, polls: seq<Poll>)
    ensures ApplyBatches(rows, Batches(earlier + polls)) ==
            ApplyBatches(ApplyBatches(rows, Batches(earlier)), Batches(polls))
  {
    hide ApplyBatch, Batches, ApplyBatches;
    if polls == [] {
      assert earlier + polls == earlier;
      NoBatches(ApplyBatches(rows, Batches(earlier)));
    } else {
      var m := |polls| - 1;
      PollsConcat(rows, earlier, polls[..m]);
      BatchesStep(rows, earlier + polls[..m], polls[m]);
      BatchesStep(ApplyBatches(rows, Batches(earlier)), polls[..m], polls[m]);
      assert earlier + polls == earlier + polls[..m] + [polls[m]] && polls == polls[..m] + [polls[m]];
    }
  }

  // An acknowledged record of a feed is one of its writes.
  lemma AcknowledgedIsAttempted(compression: Archive.Compression, events: seq<Archive.Event>, record: Archive.Record)
    requires ArchiveHours.TimesIncrease(ArchiveHours.Attempts(events, record.feed))
    requires Acknowledged(Archive.Run(Archive.Start(compression), events), record)
    ensures record in ArchiveHours.Attempts(events, record.feed)
  {
    hide Archive.Run, ArchiveHours.Attempts, ArchiveHours.TimesIncrease;
    var w := Archive.Run(Archive.Start(compression), events);
    assert Archive.SessionsOwn(w);
    ArchiveHours.RunAcksInOrder(compression, events, record.feed);
    var s :| 0 <= s < |w.sessions| && record in w.sessions[s].acked;
    assert w.sessions[s].key.feed == record.feed;
  }

  // The table a worker leaves, whatever became of the polls of its process and of
  // those before it, is the live table of the records that its polls archived.
  lemma WorkerTableIsLive(worker: Worker, earlier: seq<Poll>, compression: Archive.Compression,
                          events: seq<Archive.Event>, feed: string)
    requires worker.Valid() && worker.archive.State() == Archive.Run(Archive.Start(compression), events)
    requires worker.base == ApplyBatches(map[], Batches(earlier))
    requires PollsAreArchived(worker.tz, worker.decode, worker.archive.State(), earlier)
    requires forall poll | poll in earlier + worker.polls :: poll.record.feed == feed
    requires ArchiveHours.TimesIncrease(ArchiveHours.Attempts(events, feed))
    requires ArchiveHours.TimesIncrease(Records(earlier + worker.polls))
    ensures var polls := earlier + worker.polls;
            && worker.partitions.table.rows ==
               Live(worker.tz, worker.decode, ArchiveHours.Attempts(events, feed), UpsertedBy(polls), UsedBy(polls))
            && forall record | UpsertedBy(polls)(record) :: Acknowledged(worker.archive.State(), record)
  {
    hide Archive.Run, Archive.Inv, ArchiveHours.Attempts, ArchiveHours.TimesIncrease, Acknowledged, IsPoll, Live,
      ApplyBatches, Batches, UsedBy;
    var polls := earlier + worker.polls;
    PollsConcat(map[], earlier, worker.polls);
    assert PollsAreArchived(worker.tz, worker.decode, worker.archive.State(), polls);
    forall poll | poll in polls
      ensures poll.record in ArchiveHours.Attempts(events, feed) && UsedBy(polls)(poll.record) == poll.schedule
    {
      AcknowledgedIsAttempted(compression, events, poll.record);
      UsedByPoll(polls, poll);
    }
    PollsAreLive(worker.tz, worker.decode, ArchiveHours.Attempts(events, feed), polls, UpsertedBy(polls),
      UsedBy(polls));
    forall record | UpsertedBy(polls)(record)
      ensures Acknowledged(worker.archive.State(), record)
    {
      var i :| 0 <= i < |polls| && Records(polls)[i] == record;
      assert polls[i] in polls;
    }
  }

  lemma {:induction false} NothingToReplay(w: Archive.World, keys: seq<Archive.ShardKey>)
    requires forall key :: ArchiveHours.Shard(w, key) == []
    ensures ArchiveHours.Replay(w, keys) == []
  {
    hide ArchiveHours.Shard;
    if keys != [] {
      NothingToReplay(w, keys[..|keys| - 1]);
    }
  }

  // An acknowledged record need not survive. The process dies before the shard of
  // a poll is closed: its record is in no final shard, and the row its upsert left
  // cannot be rebuilt.
  lemma AcknowledgedThenLost(tz: int -> int, record: Archive.Record, keys: seq<Archive.ShardKey>, feed: Feed,
                             used: Archive.Record -> ScheduleIndex, replayed: Archive.Record -> ScheduleIndex)
    requires |feed.tripUpdates| == 1 && |feed.tripUpdates[0].stops| == 1 && Emits(feed.tripUpdates[0].stops[0])
    ensures var write := Archive.Write(record, 0, Archive.Finalised(Archive.NoUploader), Archive.Opened, true);
            var w := Archive.Run(Archive.Start(Archive.Gzip), [write, Archive.Restart(Archive.Gzip)]);
            && Acknowledged(w, record) && !ArchiveHours.Recovered(w, keys, record)
            && Live(tz, Only(record, feed), [record], r => true, used) !=
               Rebuilt(tz, Only(record, feed), ArchiveHours.Replay(w, keys), replayed)
  {
    hide RowsOf, ApplyBatch, Archive.Inv, Archive.Run, Emits;
    var w0 := Archive.Start(Archive.Gzip);
    var write := Archive.Write(record, 0, Archive.Finalised(Archive.NoUploader), Archive.Opened, true);
    ArchiveLoss.FirstWrite(w0, record);
    ArchiveLoss.TwoSteps(w0, write, Archive.Restart(Archive.Gzip));
    WriteAcknowledges(w0, record, 0, Archive.Finalised(Archive.NoUploader), Archive.Opened, true);
    var w := Archive.Run(w0, [write, Archive.Restart(Archive.Gzip)]);
    assert forall key :: ArchiveHours.Shard(w, key) == [];
    NothingToReplay(w, keys);
    OnlyLive(tz, feed, [record], 0, r => true, used, 1);
    assert [record][..1] == [record];
    OneStopTable(tz, feed, used(record), used(record));
  }
}
