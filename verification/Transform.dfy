// A decoded feed to observation rows: src/gtfsrt/transform.ts.
module Transform {
  import opened Wrappers
  import opened ServiceDay
  import Calendar
  import Text

  // -- The decoded feed and the schedule it is matched against ----------------

  const NO_DATA: int := 2

  datatype StopUpdate = StopUpdate(
    stopSequence: nat, stopId: string, scheduleRelationship: int,
    arrivalMs: Option<int>, departureMs: Option<int>)

  datatype TripUpdate = TripUpdate(
    tripId: string, isModified: bool, routeId: string, vehicleId: Option<string>,
    tripTimestampMs: Option<int>, stops: seq<StopUpdate>)

  datatype Feed = Feed(headerTimestampMs: int, tripUpdates: seq<TripUpdate>)

  datatype TripSchedule = TripSchedule(feedVersionId: int, activeDates: set<int>, arrivalSeconds: map<nat, int>)

  // Trips absent from the map are the ones ScheduleIndex.get knows nothing of.
  type ScheduleIndex = map<string, TripSchedule>

  function Lookup(schedule: ScheduleIndex, tripId: string): Option<TripSchedule> {
    if tripId in schedule then Some(schedule[tripId]) else None
  }

  // -- Observation rows --------------------------------------------------------

  const UNMATCHED: int := 0
  const STATIC_EXACT: int := 1
  const STATIC_PRE_MODIFICATION: int := 2

  datatype ObservationRow = ObservationRow(
    serviceDate: int, tripId: string, stopSequence: nat, isModified: bool,
    routeId: string, stopId: string,
    scheduledHourLocal: Option<int>, dayType: Option<int>, scheduledArrivalMs: Option<int>,
    scheduledSource: int, feedVersionId: Option<int>,
    observedArrivalMs: int, scheduleRelationship: int, vehicleId: Option<string>,
    observedAtMs: int)

  datatype RowKey = RowKey(serviceDate: int, tripId: string, stopSequence: nat, isModified: bool)

  function KeyOf(row: ObservationRow): RowKey {
    RowKey(row.serviceDate, row.tripId, row.stopSequence, row.isModified)
  }

  // The five schedule columns are all present or all absent.
  predicate ScheduleAllOrNothing(row: ObservationRow) {
    if row.scheduledArrivalMs.Some? then
      row.scheduledHourLocal.Some? && row.dayType.Some? && row.feedVersionId.Some?
      && row.scheduledSource != UNMATCHED
    else
      row.scheduledHourLocal.None? && row.dayType.None? && row.feedVersionId.None?
      && row.scheduledSource == UNMATCHED
  }

  // dayTypeOf: Saturday 1, Sunday 2, any other day 0. The first Saturday after
  // the first of January 1970, a Thursday, is day 2.
  function DayTypeOf(date: int): (t: int)
    ensures t in {0, 1, 2}
    ensures t == 1 <==> (date - 2) % 7 == 0
    ensures t == 2 <==> (date - 3) % 7 == 0
  {
    var dow := Calendar.DayOfWeek(date);
    if dow == 6 then 1 else if dow == 0 then 2 else 0
  }

  // -- Anchoring a trip to a service day ----------------------------------------

  datatype Resolution = Resolution(serviceDate: int, anchored: bool)

  // The first reported stop that has a static time and resolves to a date.
  function Anchor(tz: int -> int, stops: seq<StopUpdate>, schedule: TripSchedule): Option<int> {
    if stops == [] then None
    else
      var stop := stops[0];
      var resolved :=
        if stop.arrivalMs.Some? && stop.stopSequence in schedule.arrivalSeconds then
          Resolve(tz, stop.arrivalMs.value, schedule.arrivalSeconds[stop.stopSequence],
                  date => date in schedule.activeDates)
        else None;
      if resolved.Some? then resolved else Anchor(tz, stops[1..], schedule)
  }

  function ResolveTrip(tz: int -> int, trip: TripUpdate, schedule: Option<TripSchedule>, feed: Feed): Resolution {
    var fallback := Resolution(LocalDate(tz, feed.headerTimestampMs), false);
    if schedule.None? then fallback
    else
      var anchor := Anchor(tz, trip.stops, schedule.value);
      if anchor.Some? then Resolution(anchor.value, true) else fallback
  }

  // A stop that can anchor: it has an arrival and a static time.
  predicate Anchors(stop: StopUpdate, schedule: TripSchedule) {
    stop.arrivalMs.Some? && stop.stopSequence in schedule.arrivalSeconds
  }

  // The trip runs on `date`, and this stop was seen within 11.5 hours of its
  // scheduled time on that date.
  predicate SeenNear(tz: int -> int, stop: StopUpdate, schedule: TripSchedule, date: int) {
    Anchors(stop, schedule) ==>
      var seconds := schedule.arrivalSeconds[stop.stopSequence];
      0 <= seconds <= LAST_SCHEDULED_SECOND
      && Distance(tz, date, seconds, stop.arrivalMs.value) < LATENESS_LIMIT
  }

  lemma {:induction false} AnchorIsScheduledDay(tz: int -> int, stops: seq<StopUpdate>, schedule: TripSchedule,
                                                date: int)
    requires RegularZone(tz) && date in schedule.activeDates
    requires forall stop | stop in stops :: SeenNear(tz, stop, schedule, date)
    ensures Anchor(tz, stops, schedule) ==
            if exists stop | stop in stops :: Anchors(stop, schedule) then Some(date) else None
  {
    if stops != [] {
      var stop := stops[0];
      assert stop in stops;
      if Anchors(stop, schedule) {
        ResolvesToScheduledDay(tz, date, schedule.arrivalSeconds[stop.stopSequence], stop.arrivalMs.value,
          d => d in schedule.activeDates);
      } else {
        assert forall s | s in stops :: s == stop || s in stops[1..];
        AnchorIsScheduledDay(tz, stops[1..], schedule, date);
      }
    }
  }

  // Two polls of one trip, whatever stops each still reports and in whatever
  // order, agree on its service date: the primary key of a stop does not move
  // as passed stops drop out of the feed.
  lemma AnchoringIsStable(tz: int -> int, first: TripUpdate, firstFeed: Feed, later: TripUpdate, laterFeed: Feed,
                          schedule: TripSchedule, date: int)
    requires RegularZone(tz) && date in schedule.activeDates
    requires forall stop | stop in first.stops || stop in later.stops :: SeenNear(tz, stop, schedule, date)
    requires exists stop | stop in first.stops :: Anchors(stop, schedule)
    requires exists stop | stop in later.stops :: Anchors(stop, schedule)
    ensures ResolveTrip(tz, first, Some(schedule), firstFeed) == Resolution(date, true)
    ensures ResolveTrip(tz, later, Some(schedule), laterFeed) == Resolution(date, true)
  {
    AnchorIsScheduledDay(tz, first.stops, schedule, date);
    AnchorIsScheduledDay(tz, later.stops, schedule, date);
  }

  // -- One stop to one row -------------------------------------------------------

  predicate Emits(stop: StopUpdate) {
    stop.scheduleRelationship != NO_DATA && stop.arrivalMs.Some?
  }

  // A trip update, the schedule it was looked up in and the date it was given.
  datatype Matched = Matched(
    tz: int -> int, feed: Feed, trip: TripUpdate, schedule: Option<TripSchedule>, resolution: Resolution)
  {
    // The schedule, if the date was established against it.
    function Usable(): Option<TripSchedule> {
      if resolution.anchored then schedule else None
    }
  }

  function Match(tz: int -> int, feed: Feed, schedule: ScheduleIndex, trip: TripUpdate): Matched {
    var tripSchedule := Lookup(schedule, trip.tripId);
    Matched(tz, feed, trip, tripSchedule, ResolveTrip(tz, trip, tripSchedule, feed))
  }

  function RowFor(m: Matched, stop: StopUpdate): (row: ObservationRow)
    requires Emits(stop)
    ensures ScheduleAllOrNothing(row)
    ensures row.scheduledArrivalMs.Some? <==> m.Usable().Some? && stop.stopSequence in m.Usable().value.arrivalSeconds
    ensures KeyOf(row) == RowKey(m.resolution.serviceDate, m.trip.tripId, stop.stopSequence, m.trip.isModified)
    // What was observed is the feed's, matched or not.
    ensures row.observedArrivalMs == stop.arrivalMs.value && row.observedAtMs == m.feed.headerTimestampMs
    ensures row.routeId == m.trip.routeId && row.stopId == stop.stopId
    ensures row.scheduleRelationship == stop.scheduleRelationship && row.vehicleId == m.trip.vehicleId
    // What was scheduled is the static trip's, counted from twelve hours before noon.
    ensures row.scheduledArrivalMs.Some? ==>
              var scheduled := row.scheduledArrivalMs.value;
              && scheduled ==
                 Noon(m.tz, row.serviceDate) + (m.Usable().value.arrivalSeconds[stop.stopSequence] - 43_200) * 1000
              && row.feedVersionId == Some(m.Usable().value.feedVersionId)
              && row.scheduledSource == if m.trip.isModified then 2 else 1
  {
    var (usable, trip, resolution) := (m.Usable(), m.trip, m.resolution);
    var unmatched := ObservationRow(
      resolution.serviceDate, trip.tripId, stop.stopSequence, trip.isModified, trip.routeId, stop.stopId,
      None, None, None, UNMATCHED, None,
      stop.arrivalMs.value, stop.scheduleRelationship, trip.vehicleId, m.feed.headerTimestampMs);
    if usable.Some? && stop.stopSequence in usable.value.arrivalSeconds then
      var scheduledArrival :=
        ScheduledInstant(m.tz, resolution.serviceDate, usable.value.arrivalSeconds[stop.stopSequence]);
      unmatched.(
        scheduledArrivalMs := Some(scheduledArrival),
        scheduledHourLocal := Some(LocalHour(m.tz, scheduledArrival)),
        dayType := Some(DayTypeOf(resolution.serviceDate)),
        feedVersionId := Some(usable.value.feedVersionId),
        scheduledSource := if trip.isModified then STATIC_PRE_MODIFICATION else STATIC_EXACT)
    else unmatched
  }

  lemma ClockReading(tz: int -> int, instant: int)
    ensures 0 <= LocalHour(tz, instant) < 24
    ensures 0 <= WallClock(tz, instant) - LocalDate(tz, instant) * DAY - LocalHour(tz, instant) * HOUR < HOUR
  {
  }

  // What a row says of a trip that was seen near its schedule on `date`: it is
  // filed under that date and day type, it is matched exactly when its stop is in
  // the static trip, and then its scheduled arrival is the one it was late or
  // early for, with the hour the wall clock showed.
  lemma RowOfScheduledTrip(tz: int -> int, feed: Feed, schedule: ScheduleIndex, trip: TripUpdate, stop: StopUpdate,
                           date: int)
    requires RegularZone(tz) && trip.tripId in schedule && date in schedule[trip.tripId].activeDates
    requires forall s | s in trip.stops :: SeenNear(tz, s, schedule[trip.tripId], date)
    requires exists s | s in trip.stops :: Anchors(s, schedule[trip.tripId])
    requires stop in trip.stops && Emits(stop)
    ensures var row := RowFor(Match(tz, feed, schedule, trip), stop);
            && row.serviceDate == date
            && (row.scheduledArrivalMs.Some? <==> Anchors(stop, schedule[trip.tripId]))
            && (row.scheduledArrivalMs.Some? ==>
                  var scheduled := row.scheduledArrivalMs.value;
                  && Abs(row.observedArrivalMs - scheduled) < LATENESS_LIMIT
                  && (row.scheduledSource == STATIC_PRE_MODIFICATION <==> trip.isModified)
                  && row.feedVersionId == Some(schedule[trip.tripId].feedVersionId)
                  && (row.dayType == Some(0) <==> Calendar.DayOfWeek(date) in {1, 2, 3, 4, 5})
                  && row.scheduledHourLocal.Some?
                  && (var hour := row.scheduledHourLocal.value;
                      0 <= hour < 24
                      && 0 <= WallClock(tz, scheduled) - LocalDate(tz, scheduled) * DAY - hour * HOUR < HOUR))
  {
    var listed := schedule[trip.tripId];
    AnchorIsScheduledDay(tz, trip.stops, listed, date);
    assert SeenNear(tz, stop, listed, date);
    hide Anchor, Nearest, RegularZone, ServiceDayStart;
    if Anchors(stop, listed) {
      ClockReading(tz, ScheduledInstant(tz, date, listed.arrivalSeconds[stop.stopSequence]));
    }
  }

  // -- Keys ------------------------------------------------------------------------

  // `${serviceDate}|${tripId}|${stopSequence}|${isModified ? 1 : 0}`
  function KeyText(key: RowKey): string {
    Calendar.DateText(key.serviceDate) + "|" + (key.tripId + "|" + Text.Decimal(key.stopSequence))
      + "|" + (if key.isModified then "1" else "0")
  }

  // The string is as good a key as the four columns, even when the trip id
  // itself contains the separator.
  lemma KeyTextInjective(a: RowKey, b: RowKey)
    ensures KeyText(a) == KeyText(b) <==> a == b
  {
    if KeyText(a) == KeyText(b) {
      hide Calendar.DateText, Text.Decimal;
      var da, db := Calendar.DateText(a.serviceDate), Calendar.DateText(b.serviceDate);
      var na, nb := Text.Decimal(a.stopSequence), Text.Decimal(b.stopSequence);
      var fa, fb := if a.isModified then "1" else "0", if b.isModified then "1" else "0";
      Text.CutAtLast(da + "|" + (a.tripId + "|" + na), db + "|" + (b.tripId + "|" + nb), fa, fb, '|');
      Text.CutAtFirst(da, db, a.tripId + "|" + na, b.tripId + "|" + nb, '|');
      Text.CutAtLast(a.tripId, b.tripId, na, nb, '|');
      Calendar.DateTextInjective(a.serviceDate, b.serviceDate);
      Text.DecimalInjective(a.stopSequence, b.stopSequence);
    }
  }

  // -- Precedence --------------------------------------------------------------------

  const VEHICLE_WEIGHT: int := 1_000_000_000_000

  function Freshness(trip: TripUpdate): (seconds: int)
    ensures trip.tripTimestampMs.None? ==> seconds == 0
    ensures trip.tripTimestampMs.Some? ==> seconds * 1000 <= trip.tripTimestampMs.value < (seconds + 1) * 1000
  {
    (if trip.tripTimestampMs.Some? then trip.tripTimestampMs.value else 0) / 1000
  }

  function PreferenceOf(trip: TripUpdate): int {
    (if trip.vehicleId.Some? then 1 else 0) * VEHICLE_WEIGHT + Freshness(trip)
  }

  // A timestamp from 1970 to about the year 33658, or none.
  predicate Timestamped(trip: TripUpdate) {
    trip.tripTimestampMs.Some? ==> 0 <= trip.tripTimestampMs.value < 1_000_000_000_000_000
  }

  // A vehicle outranks any timestamp; then the fresher timestamp wins.
  lemma PreferenceIsLexicographic(a: TripUpdate, b: TripUpdate)
    requires Timestamped(a) && Timestamped(b)
    ensures PreferenceOf(a) < PreferenceOf(b) <==>
            (a.vehicleId.None? && b.vehicleId.Some?)
            || (a.vehicleId.Some? == b.vehicleId.Some? && Freshness(a) < Freshness(b))
  {
  }

  // -- Merging duplicates ----------------------------------------------------------------

  datatype Entry = Entry(row: ObservationRow, preference: int)

  function EntriesOfStops(m: Matched, stops: seq<StopUpdate>): seq<Entry> {
    if stops == [] then []
    else
      var n := |stops| - 1;
      var before := EntriesOfStops(m, stops[..n]);
      if Emits(stops[n]) then before + [Entry(RowFor(m, stops[n]), PreferenceOf(m.trip))] else before
  }

  function EntriesOfTrip(m: Matched): seq<Entry> {
    EntriesOfStops(m, m.trip.stops)
  }

  // Every row the feed offers, in feed order, before duplicates are resolved.
  function Entries(tz: int -> int, feed: Feed, schedule: ScheduleIndex, trips: seq<TripUpdate>): seq<Entry> {
    if trips == [] then []
    else
      var n := |trips| - 1;
      Entries(tz, feed, schedule, trips[..n]) + EntriesOfTrip(Match(tz, feed, schedule, trips[n]))
  }

  lemma {:induction false} EntriesAllOrNothing(m: Matched, stops: seq<StopUpdate>)
    ensures forall e | e in EntriesOfStops(m, stops) :: ScheduleAllOrNothing(e.row)
  {
    if stops != [] {
      EntriesAllOrNothing(m, stops[..|stops| - 1]);
    }
  }

  lemma {:induction false} FeedAllOrNothing(tz: int -> int, feed: Feed, schedule: ScheduleIndex, trips: seq<TripUpdate>)
    ensures forall e | e in Entries(tz, feed, schedule, trips) :: ScheduleAllOrNothing(e.row)
  {
    if trips != [] {
      var n := |trips| - 1;
      FeedAllOrNothing(tz, feed, schedule, trips[..n]);
      EntriesAllOrNothing(Match(tz, feed, schedule, trips[n]), trips[n].stops);
    }
  }

  // The winner for a key: an entry that carries it, that none outranks, and
  // that no later entry equals.
  ghost predicate Wins(entries: seq<Entry>, key: RowKey, i: nat) {
    && i < |entries| && KeyOf(entries[i].row) == key
    && forall j | 0 <= j < |entries| && KeyOf(entries[j].row) == key ::
         entries[j].preference <= entries[i].preference
         && (i < j ==> entries[j].preference < entries[i].preference)
  }

  // The keys of the entries, in order of first appearance.
  function FirstAppearances(entries: seq<Entry>): seq<RowKey> {
    if entries == [] then []
    else
      var n := |entries| - 1;
      var before := FirstAppearances(entries[..n]);
      var key := KeyOf(entries[n].row);
      if key in before then before else before + [key]
  }

  lemma {:induction false} FirstAppearancesAreTheKeys(entries: seq<Entry>)
    ensures forall i, j | 0 <= i < j < |FirstAppearances(entries)| ::
              FirstAppearances(entries)[i] != FirstAppearances(entries)[j]
    ensures forall key :: key in FirstAppearances(entries) <==> exists e | e in entries :: KeyOf(e.row) == key
  {
    if entries != [] {
      var n := |entries| - 1;
      FirstAppearancesAreTheKeys(entries[..n]);
      assert entries == entries[..n] + [entries[n]];
    }
  }

  ghost predicate IsWinner(entries: seq<Entry>, key: RowKey, e: Entry) {
    exists i: nat :: Wins(entries, key, i) && entries[i] == e
  }

  lemma WinnerStep(entries: seq<Entry>, key: RowKey, kept: Entry, e: Entry)
    requires IsWinner(entries, key, kept)
    ensures IsWinner(entries + [e], key,
              if KeyOf(e.row) == key && e.preference >= kept.preference then e else kept)
  {
    var i: nat :| Wins(entries, key, i) && entries[i] == kept;
    assert Wins(entries + [e], key,
      if KeyOf(e.row) == key && e.preference >= kept.preference then |entries| else i);
  }

  lemma FirstWinner(entries: seq<Entry>, e: Entry)
    requires KeyOf(e.row) !in FirstAppearances(entries)
    ensures IsWinner(entries + [e], KeyOf(e.row), e)
  {
    FirstAppearancesAreTheKeys(entries);
    assert forall j | 0 <= j < |entries| :: entries[j] in entries;
    assert Wins(entries + [e], KeyOf(e.row), |entries|);
  }

  // Rows keyed by text: an entry for each key that has appeared, its winner.
  ghost predicate Merged(entries: seq<Entry>, byKey: map<string, Entry>) {
    && (forall key :: KeyText(key) in byKey <==> key in FirstAppearances(entries))
    && (forall key :: KeyText(key) in byKey ==> IsWinner(entries, key, byKey[KeyText(key)]))
  }

  function Texts(keys: seq<RowKey>): seq<string> {
    seq(|keys|, i requires 0 <= i < |keys| => KeyText(keys[i]))
  }

  // One turn of the loop: a first row for its key is added; a later one replaces
  // the stored row when its preference is at least as high.
  function Merge(byKey: map<string, Entry>, e: Entry): map<string, Entry> {
    var text := KeyText(KeyOf(e.row));
    if text !in byKey || e.preference >= byKey[text].preference then byKey[text := e] else byKey
  }

  lemma MergeStep(entries: seq<Entry>, byKey: map<string, Entry>, e: Entry)
    requires Merged(entries, byKey)
    ensures Merged(entries + [e], Merge(byKey, e))
  {
    hide KeyText, Wins, IsWinner;
    var byKey' := Merge(byKey, e);
    var entries' := entries + [e];
    assert entries'[..|entries|] == entries;
    forall key
      ensures KeyText(key) in byKey' <==> key in FirstAppearances(entries')
      ensures KeyText(key) in byKey' ==> IsWinner(entries', key, byKey'[KeyText(key)])
    {
      KeyTextInjective(key, KeyOf(e.row));
      if KeyText(key) in byKey {
        WinnerStep(entries, key, byKey[KeyText(key)], e);
      } else if key == KeyOf(e.row) {
        FirstWinner(entries, e);
      }
    }
  }

  lemma OrderStep(entries: seq<Entry>, byKey: map<string, Entry>, order: seq<string>, e: Entry)
    requires Merged(entries, byKey) && order == Texts(FirstAppearances(entries))
    ensures var text := KeyText(KeyOf(e.row));
            Texts(FirstAppearances(entries + [e])) == if text in byKey then order else order + [text]
  {
    hide KeyText;
    assert (entries + [e])[..|entries|] == entries;
  }

  // One row per key, in order of first appearance, each from the winning entry.
  ghost predicate IsMerge(entries: seq<Entry>, rows: seq<ObservationRow>) {
    && |rows| == |FirstAppearances(entries)|
    && forall r | 0 <= r < |rows| ::
         KeyOf(rows[r]) == FirstAppearances(entries)[r]
         && exists i: nat :: Wins(entries, KeyOf(rows[r]), i) && rows[r] == entries[i].row
  }

  lemma MergedValues(entries: seq<Entry>, byKey: map<string, Entry>, order: seq<string>)
    requires Merged(entries, byKey) && order == Texts(FirstAppearances(entries))
    ensures forall r | 0 <= r < |order| :: order[r] in byKey
    ensures IsMerge(entries, seq(|order|, r requires 0 <= r < |order| && order[r] in byKey => byKey[order[r]].row))
  {
    hide KeyText;
  }

  // -- Counters --------------------------------------------------------------------------

  datatype Stats = Stats(
    tripUpdates: nat, modifiedTrips: nat, stopUpdatesTotal: nat, rowsEmitted: nat,
    skippedDepartureOnly: nat, skippedNoData: nat, skippedNoTime: nat,
    unmatchedTrips: nat, unmatchedStops: nat, unresolvedServiceDate: nat, duplicateKeys: nat)

  datatype StopKind = NoData | DepartureOnly | NoTime | Emitted

  function KindOf(stop: StopUpdate): (kind: StopKind)
    ensures kind == NoData <==> stop.scheduleRelationship == 2
    ensures kind == Emitted <==> stop.scheduleRelationship != 2 && stop.arrivalMs.Some?
    ensures kind == DepartureOnly <==>
            stop.scheduleRelationship != 2 && stop.arrivalMs.None? && stop.departureMs.Some?
  {
    if stop.scheduleRelationship == NO_DATA then NoData
    else if stop.arrivalMs.Some? then Emitted
    else if stop.departureMs.Some? then DepartureOnly
    else NoTime
  }

  function CountStops(stops: seq<StopUpdate>, kind: StopKind): nat {
    if stops == [] then 0
    else CountStops(stops[..|stops| - 1], kind) + if KindOf(stops[|stops| - 1]) == kind then 1 else 0
  }

  function CountAll(trips: seq<TripUpdate>, kind: StopKind): nat {
    if trips == [] then 0
    else CountAll(trips[..|trips| - 1], kind) + CountStops(trips[|trips| - 1].stops, kind)
  }

  // Emitted stops of an anchored trip that its static schedule does not list.
  function CountUnlisted(stops: seq<StopUpdate>, usable: Option<TripSchedule>): nat {
    if stops == [] then 0
    else
      var n := |stops| - 1;
      CountUnlisted(stops[..n], usable)
      + if Emits(stops[n]) && usable.Some? && stops[n].stopSequence !in usable.value.arrivalSeconds then 1 else 0
  }

  // The counters that depend on the trips reported, not on their stops' kinds.
  datatype TripCounts = TripCounts(modified: nat, unmatched: nat, unresolved: nat, unlistedStops: nat)

  function CountTrip(counts: TripCounts, m: Matched): TripCounts {
    TripCounts(
      counts.modified + (if m.trip.isModified then 1 else 0),
      counts.unmatched + (if m.schedule.None? then 1 else 0),
      counts.unresolved + (if !m.resolution.anchored && m.schedule.Some? then 1 else 0),
      counts.unlistedStops + CountUnlisted(m.trip.stops, m.Usable()))
  }

  function CountTrips(tz: int -> int, feed: Feed, schedule: ScheduleIndex, trips: seq<TripUpdate>): TripCounts {
    if trips == [] then TripCounts(0, 0, 0, 0)
    else
      var n := |trips| - 1;
      CountTrip(CountTrips(tz, feed, schedule, trips[..n]), Match(tz, feed, schedule, trips[n]))
  }

  function HowMany<T>(s: seq<T>, p: T -> bool): nat {
    if s == [] then 0 else HowMany(s[..|s| - 1], p) + if p(s[|s| - 1]) then 1 else 0
  }

  function Modified(): TripUpdate -> bool {
    (trip: TripUpdate) => trip.isModified
  }

  function Unscheduled(schedule: ScheduleIndex): TripUpdate -> bool {
    (trip: TripUpdate) => trip.tripId !in schedule
  }

  // None of the trip's stops gives it a date on which it runs.
  function Undated(tz: int -> int, schedule: ScheduleIndex): TripUpdate -> bool {
    (trip: TripUpdate) => trip.tripId in schedule && Anchor(tz, trip.stops, schedule[trip.tripId]).None?
  }

  function WithoutSchedule(): Entry -> bool {
    (e: Entry) => e.row.scheduledArrivalMs.None?
  }

  // The rows a trip offers without a schedule, though it was anchored to one.
  lemma {:induction false} UnlistedAreUnmatched(m: Matched, stops: seq<StopUpdate>)
    ensures CountUnlisted(stops, m.Usable()) ==
            if m.Usable().Some? then HowMany(EntriesOfStops(m, stops), WithoutSchedule()) else 0
  {
    if stops != [] {
      var n := |stops| - 1;
      UnlistedAreUnmatched(m, stops[..n]);
      if Emits(stops[n]) {
        var (before, row) := (EntriesOfStops(m, stops[..n]), RowFor(m, stops[n]));
        assert (before + [Entry(row, PreferenceOf(m.trip))])[..|before|] == before;
      }
      hide RowFor;
    }
  }

  function UnlistedStops(tz: int -> int, feed: Feed, schedule: ScheduleIndex, trips: seq<TripUpdate>): nat {
    if trips == [] then 0
    else
      var m := Match(tz, feed, schedule, trips[|trips| - 1]);
      UnlistedStops(tz, feed, schedule, trips[..|trips| - 1])
      + if m.Usable().Some? then HowMany(EntriesOfTrip(m), WithoutSchedule()) else 0
  }

  // What the counters of trips count.
  lemma {:induction false} TripCountersMean(tz: int -> int, feed: Feed, schedule: ScheduleIndex, trips: seq<TripUpdate>)
    ensures var counts := CountTrips(tz, feed, schedule, trips);
            && counts.modified == HowMany(trips, Modified())
            && counts.unmatched == HowMany(trips, Unscheduled(schedule))
            && counts.unresolved == HowMany(trips, Undated(tz, schedule))
            && counts.unlistedStops == UnlistedStops(tz, feed, schedule, trips)
  {
    if trips != [] {
      hide Anchor, EntriesOfStops, CountUnlisted;
      var n := |trips| - 1;
      TripCountersMean(tz, feed, schedule, trips[..n]);
      var m := Match(tz, feed, schedule, trips[n]);
      UnlistedAreUnmatched(m, trips[n].stops);
    }
  }

  datatype StopCounts = StopCounts(total: nat, noData: nat, departureOnly: nat, noTime: nat, duplicates: nat)

  // Every stop is in exactly one of five classes: three kinds of skip, a row
  // that was added for it, or a duplicate.
  ghost predicate CountedStops(stops: seq<StopUpdate>, counts: StopCounts, rowsAdded: int) {
    && counts.noData == CountStops(stops, NoData)
    && counts.departureOnly == CountStops(stops, DepartureOnly)
    && counts.noTime == CountStops(stops, NoTime)
    && rowsAdded + counts.duplicates == CountStops(stops, Emitted)
    && counts.total == rowsAdded + counts.duplicates + counts.noData + counts.departureOnly + counts.noTime
  }

  ghost predicate CountedAll(trips: seq<TripUpdate>, counts: StopCounts, rowsAdded: int) {
    && counts.noData == CountAll(trips, NoData)
    && counts.departureOnly == CountAll(trips, DepartureOnly)
    && counts.noTime == CountAll(trips, NoTime)
    && rowsAdded + counts.duplicates == CountAll(trips, Emitted)
    && counts.total == rowsAdded + counts.duplicates + counts.noData + counts.departureOnly + counts.noTime
  }

  function CountStop(counts: StopCounts, stop: StopUpdate, added: bool): StopCounts {
    var counted := counts.(total := counts.total + 1);
    match KindOf(stop)
    case NoData => counted.(noData := counts.noData + 1)
    case DepartureOnly => counted.(departureOnly := counts.departureOnly + 1)
    case NoTime => counted.(noTime := counts.noTime + 1)
    case Emitted => if added then counted else counted.(duplicates := counts.duplicates + 1)
  }

  // One more stop, which added a row, or repeated a key, or was skipped.
  lemma StopStep(stops: seq<StopUpdate>, stop: StopUpdate, counts: StopCounts, rows: int, added: bool)
    requires CountedStops(stops, counts, rows)
    ensures CountedStops(stops + [stop], CountStop(counts, stop, added),
                         if Emits(stop) && added then rows + 1 else rows)
  {
    assert (stops + [stop])[..|stops|] == stops;
  }

  function Plus(a: StopCounts, b: StopCounts): StopCounts {
    StopCounts(a.total + b.total, a.noData + b.noData, a.departureOnly + b.departureOnly,
      a.noTime + b.noTime, a.duplicates + b.duplicates)
  }

  lemma CountedStep(trips: seq<TripUpdate>, trip: TripUpdate, counts: StopCounts, seen: StopCounts, rows: int,
                    added: int)
    requires CountedAll(trips, counts, rows) && CountedStops(trip.stops, seen, added)
    ensures CountedAll(trips + [trip], Plus(counts, seen), rows + added)
  {
    hide CountStops;
    assert (trips + [trip])[..|trips|] == trips;
  }

  // -- The transform -------------------------------------------------------------------

  // What transformFeed promises: one row per key offered, the winning one, in
  // order of first appearance, and counters that account for every stop.
  ghost predicate IsTransform(tz: int -> int, feed: Feed, schedule: ScheduleIndex,
                              rows: seq<ObservationRow>, stats: Stats)
  {
    var entries := Entries(tz, feed, schedule, feed.tripUpdates);
    var trips := CountTrips(tz, feed, schedule, feed.tripUpdates);
    && IsMerge(entries, rows)
    && stats.tripUpdates == |feed.tripUpdates|
    && stats.modifiedTrips == trips.modified
    && stats.unmatchedTrips == trips.unmatched
    && stats.unresolvedServiceDate == trips.unresolved
    && stats.unmatchedStops == trips.unlistedStops
    && stats.rowsEmitted == |rows|
    && CountedAll(feed.tripUpdates,
         StopCounts(stats.stopUpdatesTotal, stats.skippedNoData, stats.skippedDepartureOnly, stats.skippedNoTime,
                    stats.duplicateKeys), |rows|)
  }

  ghost predicate AfterEntries(entries: seq<Entry>, byKey: map<string, Entry>, order: seq<string>) {
    Merged(entries, byKey) && order == Texts(FirstAppearances(entries))
  }

  // Where the inner loop stands once it has seen some stops of a trip.
  ghost predicate AfterStops(m: Matched, entries0: seq<Entry>, rows0: int, seen: seq<StopUpdate>,
                             byKey: map<string, Entry>, order: seq<string>, counts: StopCounts, unlisted: nat)
  {
    && AfterEntries(entries0 + EntriesOfStops(m, seen), byKey, order)
    && CountedStops(seen, counts, |order| - rows0)
    && unlisted == CountUnlisted(seen, m.Usable())
  }

  lemma StopsStart(m: Matched, entries0: seq<Entry>, byKey: map<string, Entry>, order: seq<string>)
    requires AfterEntries(entries0, byKey, order)
    ensures AfterStops(m, entries0, |order|, [], byKey, order, StopCounts(0, 0, 0, 0, 0), 0)
  {
    hide RowFor, AfterEntries;
    assert entries0 + [] == entries0;
  }

  lemma SkipStep(m: Matched, entries0: seq<Entry>, rows0: int, seen: seq<StopUpdate>, stop: StopUpdate,
                 byKey: map<string, Entry>, order: seq<string>, counts: StopCounts, unlisted: nat)
    requires AfterStops(m, entries0, rows0, seen, byKey, order, counts, unlisted) && !Emits(stop)
    ensures AfterStops(m, entries0, rows0, seen + [stop], byKey, order, CountStop(counts, stop, true), unlisted)
  {
    hide RowFor, AfterEntries, CountedStops;
    StopStep(seen, stop, counts, |order| - rows0, true);
    assert (seen + [stop])[..|seen|] == seen;
  }

  lemma RowStep(m: Matched, entries0: seq<Entry>, rows0: int, seen: seq<StopUpdate>, stop: StopUpdate,
                byKey: map<string, Entry>, order: seq<string>, counts: StopCounts, unlisted: nat,
                byKey': map<string, Entry>, order': seq<string>, added: bool)
    requires AfterStops(m, entries0, rows0, seen, byKey, order, counts, unlisted) && Emits(stop)
    requires AfterEntries(entries0 + EntriesOfStops(m, seen) + [Entry(RowFor(m, stop), PreferenceOf(m.trip))],
                          byKey', order')
    requires |order'| == |order| + if added then 1 else 0
    ensures AfterStops(m, entries0, rows0, seen + [stop], byKey', order', CountStop(counts, stop, added),
              if m.Usable().Some? && stop.stopSequence !in m.Usable().value.arrivalSeconds
                then unlisted + 1 else unlisted)
  {
    hide RowFor, AfterEntries, CountedStops;
    StopStep(seen, stop, counts, |order| - rows0, added);
    assert (seen + [stop])[..|seen|] == seen;
    var e := Entry(RowFor(m, stop), PreferenceOf(m.trip));
    assert entries0 + EntriesOfStops(m, seen) + [e] == entries0 + (EntriesOfStops(m, seen) + [e]);
  }

  lemma TripsSnoc(tz: int -> int, feed: Feed, schedule: ScheduleIndex, trips: seq<TripUpdate>, trip: TripUpdate)
    ensures Entries(tz, feed, schedule, trips + [trip]) ==
            Entries(tz, feed, schedule, trips) + EntriesOfTrip(Match(tz, feed, schedule, trip))
    ensures CountTrips(tz, feed, schedule, trips + [trip]) ==
            CountTrip(CountTrips(tz, feed, schedule, trips), Match(tz, feed, schedule, trip))
  {
    hide Match, EntriesOfTrip, CountTrip;
    assert (trips + [trip])[..|trips|] == trips;
  }

  // byKey.set, unless an entry of higher preference is there already.
  method Offer(byKey0: map<string, Entry>, order0: seq<string>, entry: Entry, ghost entries: seq<Entry>)
    returns (byKey: map<string, Entry>, order: seq<string>, added: bool)
    requires AfterEntries(entries, byKey0, order0)
    ensures AfterEntries(entries + [entry], byKey, order)
    ensures |order| == |order0| + if added then 1 else 0
  {
    hide Merged, KeyText, Texts, FirstAppearances;
    byKey, order := byKey0, order0;
    MergeStep(entries, byKey, entry);
    OrderStep(entries, byKey, order, entry);
    var key := KeyText(KeyOf(entry.row));
    added := key !in byKey;
    if added {
      byKey := byKey[key := entry];
      order := order + [key];
    } else if entry.preference >= byKey[key].preference {
      byKey := byKey[key := entry];
    }
  }

  lemma EntriesSoFar(m: Matched, entries0: seq<Entry>, rows0: int, seen: seq<StopUpdate>,
                     byKey: map<string, Entry>, order: seq<string>, counts: StopCounts, unlisted: nat)
    requires AfterStops(m, entries0, rows0, seen, byKey, order, counts, unlisted)
    ensures AfterEntries(entries0 + EntriesOfStops(m, seen), byKey, order)
  {
    hide EntriesOfStops, AfterEntries, CountedStops;
  }

  // The inner loop, over the stops of one trip.
  method TransformStops(m: Matched, byKey0: map<string, Entry>, order0: seq<string>, ghost entries0: seq<Entry>)
    returns (byKey: map<string, Entry>, order: seq<string>, counts: StopCounts, unlisted: nat)
    requires AfterEntries(entries0, byKey0, order0)
    ensures AfterStops(m, entries0, |order0|, m.trip.stops, byKey, order, counts, unlisted)
  {
    hide RowFor, PreferenceOf, AfterStops, AfterEntries, EntriesOfStops, ScheduleAllOrNothing;
    var stops := m.trip.stops;
    assert stops[..0] == [];
    StopsStart(m, entries0, byKey0, order0);
    byKey, order := byKey0, order0;
    var total, noData, departureOnly, noTime, duplicates := 0, 0, 0, 0, 0;
    unlisted := 0;
    for s := 0 to |stops|
      invariant AfterStops(m, entries0, |order0|, stops[..s], byKey, order,
                  StopCounts(total, noData, departureOnly, noTime, duplicates), unlisted)
    {
      var stop := stops[s];
      assert stops[..s + 1] == stops[..s] + [stop];
      ghost var before := StopCounts(total, noData, departureOnly, noTime, duplicates);
      total := total + 1;
      if stop.scheduleRelationship == NO_DATA {
        SkipStep(m, entries0, |order0|, stops[..s], stop, byKey, order, before, unlisted);
        noData := noData + 1;
        continue;
      }
      if stop.arrivalMs.None? {
        SkipStep(m, entries0, |order0|, stops[..s], stop, byKey, order, before, unlisted);
        if stop.departureMs.Some? {
          departureOnly := departureOnly + 1;
        } else {
          noTime := noTime + 1;
        }
        continue;
      }
      ghost var byKeyBefore, orderBefore, unlistedBefore := byKey, order, unlisted;
      if m.Usable().Some? && stop.stopSequence !in m.Usable().value.arrivalSeconds {
        unlisted := unlisted + 1;
      }
      var entry := Entry(RowFor(m, stop), PreferenceOf(m.trip));
      var added;
      EntriesSoFar(m, entries0, |order0|, stops[..s], byKey, order, before, unlistedBefore);
      byKey, order, added := Offer(byKey, order, entry, entries0 + EntriesOfStops(m, stops[..s]));
      RowStep(m, entries0, |order0|, stops[..s], stop, byKeyBefore, orderBefore, before, unlistedBefore,
        byKey, order, added);
      if !added {
        duplicates := duplicates + 1;
      }
    }
    assert stops[..|stops|] == stops;
    counts := StopCounts(total, noData, departureOnly, noTime, duplicates);
  }

  // Where the outer loop stands once it has seen some trips of the feed.
  ghost predicate AfterTrips(tz: int -> int, feed: Feed, schedule: ScheduleIndex, seen: seq<TripUpdate>,
                             byKey: map<string, Entry>, order: seq<string>, stops: StopCounts, trips: TripCounts)
  {
    && AfterEntries(Entries(tz, feed, schedule, seen), byKey, order)
    && CountedAll(seen, stops, |order|)
    && trips == CountTrips(tz, feed, schedule, seen)
  }

  lemma TripsStart(tz: int -> int, feed: Feed, schedule: ScheduleIndex)
    ensures AfterTrips(tz, feed, schedule, [], map[], [], StopCounts(0, 0, 0, 0, 0), TripCounts(0, 0, 0, 0))
  {
    hide Match;
  }

  lemma TripStep(tz: int -> int, feed: Feed, schedule: ScheduleIndex, seen: seq<TripUpdate>, trip: TripUpdate,
                 byKey: map<string, Entry>, order: seq<string>, stops: StopCounts, trips: TripCounts,
                 byKey': map<string, Entry>, order': seq<string>, counts: StopCounts, unlisted: nat)
    requires AfterTrips(tz, feed, schedule, seen, byKey, order, stops, trips)
    requires AfterStops(Match(tz, feed, schedule, trip), Entries(tz, feed, schedule, seen), |order|, trip.stops,
               byKey', order', counts, unlisted)
    ensures AfterTrips(tz, feed, schedule, seen + [trip], byKey', order', Plus(stops, counts),
              CountTrip(trips, Match(tz, feed, schedule, trip)))
    ensures unlisted == CountUnlisted(trip.stops, Match(tz, feed, schedule, trip).Usable())
  {
    assert Match(tz, feed, schedule, trip).trip == trip;
    hide Match, EntriesOfStops, AfterEntries, CountedStops, CountedAll, CountUnlisted, CountTrip, Entries, CountTrips;
    TripsSnoc(tz, feed, schedule, seen, trip);
    CountedStep(seen, trip, stops, counts, |order|, |order'| - |order|);
  }

  lemma MatchKeepsTrip(tz: int -> int, feed: Feed, schedule: ScheduleIndex, trip: TripUpdate)
    ensures Match(tz, feed, schedule, trip).trip == trip
  {
  }

  method TransformFeed(tz: int -> int, feed: Feed, schedule: ScheduleIndex)
    returns (rows: seq<ObservationRow>, stats: Stats)
    ensures IsTransform(tz, feed, schedule, rows, stats)
  {
    hide ResolveTrip, Match, AfterStops, Entries, CountTrips, CountUnlisted, CountedAll, KeyText, Merged, Texts,
      FirstAppearances, IsMerge;
    // A JavaScript Map: the entries, and the keys in insertion order.
    var byKey: map<string, Entry> := map[];
    var order: seq<string> := [];
    var trips := TripCounts(0, 0, 0, 0);
    var stops := StopCounts(0, 0, 0, 0, 0);
    TripsStart(tz, feed, schedule);
    assert feed.tripUpdates[..0] == [];

    for t := 0 to |feed.tripUpdates|
      invariant AfterTrips(tz, feed, schedule, feed.tripUpdates[..t], byKey, order, stops, trips)
    {
      var trip := feed.tripUpdates[t];
      assert feed.tripUpdates[..t + 1] == feed.tripUpdates[..t] + [trip];
      var m := Match(tz, feed, schedule, trip);
      MatchKeepsTrip(tz, feed, schedule, trip);
      ghost var byKeyBefore, orderBefore := byKey, order;
      var counts, unlisted;
      byKey, order, counts, unlisted :=
        TransformStops(m, byKey, order, Entries(tz, feed, schedule, feed.tripUpdates[..t]));
      TripStep(tz, feed, schedule, feed.tripUpdates[..t], trip, byKeyBefore, orderBefore, stops, trips,
        byKey, order, counts, unlisted);
      stops := Plus(stops, counts);
      trips := TripCounts(
        trips.modified + (if trip.isModified then 1 else 0),
        trips.unmatched + (if m.schedule.None? then 1 else 0),
        trips.unresolved + (if !m.resolution.anchored && m.schedule.Some? then 1 else 0),
        trips.unlistedStops + unlisted);
    }
    assert feed.tripUpdates[..|feed.tripUpdates|] == feed.tripUpdates;
    MergedValues(Entries(tz, feed, schedule, feed.tripUpdates), byKey, order);
    rows := seq(|order|, r requires 0 <= r < |order| && order[r] in byKey => byKey[order[r]].row);
    stats := Stats(|feed.tripUpdates|, trips.modified, stops.total, |rows|,
      stops.departureOnly, stops.noData, stops.noTime,
      trips.unmatched, trips.unlistedStops, trips.unresolved, stops.duplicates);
  }

  // -- What the output means -------------------------------------------------------------

  function OfferedKey(m: Matched, stop: StopUpdate): RowKey {
    RowKey(m.resolution.serviceDate, m.trip.tripId, stop.stopSequence, m.trip.isModified)
  }

  // A key is offered when some trip update, at the date it was given, reports
  // an arrival for that stop and does not mark it NO_DATA.
  ghost predicate Offered(tz: int -> int, feed: Feed, schedule: ScheduleIndex, trips: seq<TripUpdate>, key: RowKey) {
    exists t, s :: 0 <= t < |trips| && 0 <= s < |trips[t].stops| && Emits(trips[t].stops[s])
      && key == OfferedKey(Match(tz, feed, schedule, trips[t]), trips[t].stops[s])
  }

  lemma {:induction false} EntryKeysOfStops(m: Matched, stops: seq<StopUpdate>, key: RowKey)
    ensures (exists e | e in EntriesOfStops(m, stops) :: KeyOf(e.row) == key) <==>
            exists s :: 0 <= s < |stops| && Emits(stops[s]) && key == OfferedKey(m, stops[s])
  {
    if stops != [] {
      var n := |stops| - 1;
      var before := EntriesOfStops(m, stops[..n]);
      EntryKeysOfStops(m, stops[..n], key);
      assert forall s | 0 <= s < n :: stops[..n][s] == stops[s];
      if Emits(stops[n]) {
        var last := Entry(RowFor(m, stops[n]), PreferenceOf(m.trip));
        assert last in EntriesOfStops(m, stops);
        assert forall e :: e in EntriesOfStops(m, stops) <==> e in before || e == last;
      }
    }
  }

  lemma {:induction false} EntryKeys(tz: int -> int, feed: Feed, schedule: ScheduleIndex, trips: seq<TripUpdate>,
                                     key: RowKey)
    ensures (exists e | e in Entries(tz, feed, schedule, trips) :: KeyOf(e.row) == key) <==>
            Offered(tz, feed, schedule, trips, key)
  {
    if trips != [] {
      hide Match, EntriesOfStops, OfferedKey;
      var n := |trips| - 1;
      var m := Match(tz, feed, schedule, trips[n]);
      EntryKeys(tz, feed, schedule, trips[..n], key);
      assert m.trip == trips[n] by { MatchKeepsTrip(tz, feed, schedule, trips[n]); }
      EntryKeysOfStops(m, trips[n].stops, key);
      assert forall t | 0 <= t < n :: trips[..n][t] == trips[t];
    }
  }

  ghost predicate KeysDistinct(rows: seq<ObservationRow>) {
    forall i, j | 0 <= i < j < |rows| :: KeyOf(rows[i]) != KeyOf(rows[j])
  }

  ghost predicate HasKey(rows: seq<ObservationRow>, key: RowKey) {
    exists row | row in rows :: KeyOf(row) == key
  }

  lemma MergeRows(entries: seq<Entry>, rows: seq<ObservationRow>, key: RowKey)
    requires IsMerge(entries, rows)
    ensures KeysDistinct(rows)
    ensures HasKey(rows, key) <==> exists e | e in entries :: KeyOf(e.row) == key
    ensures forall row | row in rows :: exists e | e in entries :: e.row == row
  {
    FirstAppearancesAreTheKeys(entries);
    var keys := FirstAppearances(entries);
    if key in keys {
      var r :| 0 <= r < |keys| && keys[r] == key;
      assert rows[r] in rows;
    }
    forall row | row in rows
      ensures exists e | e in entries :: e.row == row
    {
      var r :| 0 <= r < |rows| && rows[r] == row;
      var i: nat :| Wins(entries, KeyOf(row), i) && row == entries[i].row;
      assert entries[i] in entries;
    }
  }

  // The rows of a feed have pairwise distinct keys, exactly the keys offered;
  // each row carries all of its schedule columns or none; and the counters add
  // up to the stops reported.
  // The row holds what the feed reports of that stop of that trip.
  predicate Carries(row: ObservationRow, feed: Feed, trip: TripUpdate, stop: StopUpdate) {
    && row.tripId == trip.tripId && row.isModified == trip.isModified && row.routeId == trip.routeId
    && row.vehicleId == trip.vehicleId && row.stopSequence == stop.stopSequence && row.stopId == stop.stopId
    && stop.arrivalMs == Some(row.observedArrivalMs) && row.scheduleRelationship == stop.scheduleRelationship
    && row.observedAtMs == feed.headerTimestampMs
  }

  lemma RowCarriesItsStop(tz: int -> int, feed: Feed, schedule: ScheduleIndex, trip: TripUpdate, stop: StopUpdate)
    requires Emits(stop)
    ensures Carries(RowFor(Match(tz, feed, schedule, trip), stop), feed, trip, stop)
  {
    hide RowFor, ResolveTrip;
    var m := Match(tz, feed, schedule, trip);
    var row := RowFor(m, stop);
    assert KeyOf(row) == RowKey(m.resolution.serviceDate, trip.tripId, stop.stopSequence, trip.isModified);
  }

  lemma {:induction false} EntriesOfStopsCarry(tz: int -> int, feed: Feed, schedule: ScheduleIndex, trip: TripUpdate,
                                               stops: seq<StopUpdate>)
    ensures forall e | e in EntriesOfStops(Match(tz, feed, schedule, trip), stops) ::
              exists stop | stop in stops :: Emits(stop) && Carries(e.row, feed, trip, stop)
  {
    if stops != [] {
      hide Carries, RowFor, Match, Emits;
      var n := |stops| - 1;
      assert stops == stops[..n] + [stops[n]];
      EntriesOfStopsCarry(tz, feed, schedule, trip, stops[..n]);
      if Emits(stops[n]) {
        RowCarriesItsStop(tz, feed, schedule, trip, stops[n]);
      }
    }
  }

  lemma {:induction false} EntriesCarry(tz: int -> int, feed: Feed, schedule: ScheduleIndex, trips: seq<TripUpdate>)
    ensures forall e | e in Entries(tz, feed, schedule, trips) ::
              exists trip, stop | trip in trips && stop in trip.stops :: Emits(stop) && Carries(e.row, feed, trip, stop)
  {
    if trips != [] {
      hide Carries, EntriesOfStops, Emits;
      var n := |trips| - 1;
      assert trips == trips[..n] + [trips[n]];
      MatchKeepsTrip(tz, feed, schedule, trips[n]);
      hide Match;
      EntriesCarry(tz, feed, schedule, trips[..n]);
      EntriesOfStopsCarry(tz, feed, schedule, trips[n], trips[n].stops);
    }
  }

  // Whom the feed's counters count.
  lemma CountersMean(tz: int -> int, feed: Feed, schedule: ScheduleIndex, rows: seq<ObservationRow>, stats: Stats)
    requires IsTransform(tz, feed, schedule, rows, stats)
    ensures stats.modifiedTrips == HowMany(feed.tripUpdates, Modified())
    ensures stats.unmatchedTrips == HowMany(feed.tripUpdates, Unscheduled(schedule))
    ensures stats.unresolvedServiceDate == HowMany(feed.tripUpdates, Undated(tz, schedule))
    ensures stats.unmatchedStops == UnlistedStops(tz, feed, schedule, feed.tripUpdates)
  {
    hide Entries, IsMerge, CountedAll;
    TripCountersMean(tz, feed, schedule, feed.tripUpdates);
  }

  // Every row holds what the feed reports of a stop that has an arrival and is not
  // marked NO_DATA.
  lemma RowsCarryTheFeed(tz: int -> int, feed: Feed, schedule: ScheduleIndex, rows: seq<ObservationRow>, stats: Stats,
                         row: ObservationRow)
    requires IsTransform(tz, feed, schedule, rows, stats) && row in rows
    ensures exists trip, stop | trip in feed.tripUpdates && stop in trip.stops ::
              stop.scheduleRelationship != 2 && Carries(row, feed, trip, stop)
  {
    hide Entries, CountTrips, CountedAll, Carries, IsMerge;
    EntriesCarry(tz, feed, schedule, feed.tripUpdates);
    MergeRows(Entries(tz, feed, schedule, feed.tripUpdates), rows, KeyOf(row));
  }

  lemma TransformOutput(tz: int -> int, feed: Feed, schedule: ScheduleIndex, rows: seq<ObservationRow>, stats: Stats)
    requires IsTransform(tz, feed, schedule, rows, stats)
    ensures KeysDistinct(rows)
    ensures forall key :: HasKey(rows, key) <==> Offered(tz, feed, schedule, feed.tripUpdates, key)
    ensures forall row | row in rows :: ScheduleAllOrNothing(row)
    ensures stats.stopUpdatesTotal == stats.rowsEmitted + stats.duplicateKeys
              + stats.skippedNoData + stats.skippedDepartureOnly + stats.skippedNoTime
  {
    hide Offered, Entries, CountTrips, CountAll, IsMerge, HasKey, KeysDistinct, ScheduleAllOrNothing;
    var entries := Entries(tz, feed, schedule, feed.tripUpdates);
    FeedAllOrNothing(tz, feed, schedule, feed.tripUpdates);
    MergeRows(entries, rows, RowKey(0, "", 0, false));
    forall key
      ensures HasKey(rows, key) <==> Offered(tz, feed, schedule, feed.tripUpdates, key)
    {
      MergeRows(entries, rows, key);
      EntryKeys(tz, feed, schedule, feed.tripUpdates, key);
    }
  }

  // -- Which update a row comes from -------------------------------------------------------

  // A stop of the feed that offers a row: trip update t, stop s.
  predicate Reports(trips: seq<TripUpdate>, at: (int, int)) {
    0 <= at.0 < |trips| && 0 <= at.1 < |trips[at.0].stops| && Emits(trips[at.0].stops[at.1])
  }

  predicate Earlier(a: (int, int), b: (int, int)) {
    a.0 < b.0 || (a.0 == b.0 && a.1 < b.1)
  }

  function EntryAt(tz: int -> int, feed: Feed, schedule: ScheduleIndex, trips: seq<TripUpdate>, at: (int, int)): Entry
    requires Reports(trips, at)
  {
    Entry(RowFor(Match(tz, feed, schedule, trips[at.0]), trips[at.0].stops[at.1]), PreferenceOf(trips[at.0]))
  }

  function OriginsOfStops(t: int, stops: seq<StopUpdate>): seq<(int, int)> {
    if stops == [] then []
    else
      var n := |stops| - 1;
      OriginsOfStops(t, stops[..n]) + if Emits(stops[n]) then [(t, n)] else []
  }

  function Origins(trips: seq<TripUpdate>): seq<(int, int)> {
    if trips == [] then []
    else Origins(trips[..|trips| - 1]) + OriginsOfStops(|trips| - 1, trips[|trips| - 1].stops)
  }

  // The stops that offer a row, in feed order.
  ghost predicate InOrder(origins: seq<(int, int)>) {
    forall i, j | 0 <= i < j < |origins| :: Earlier(origins[i], origins[j])
  }

  lemma InOrderConcat(a: seq<(int, int)>, b: seq<(int, int)>)
    requires InOrder(a) && InOrder(b) && forall x, y | x in a && y in b :: Earlier(x, y)
    ensures InOrder(a + b)
  {
    hide Earlier;
    forall i, j | 0 <= i < j < |a + b|
      ensures Earlier((a + b)[i], (a + b)[j])
    {
      if i < |a| <= j {
        assert a[i] in a && b[j - |a|] in b;
      }
    }
  }

  lemma OneIsInOrder(s: seq<(int, int)>)
    requires |s| <= 1
    ensures InOrder(s)
  {
  }

  lemma {:induction false} OriginsOfStopsInOrder(t: int, stops: seq<StopUpdate>, k: nat)
    requires k <= |stops|
    ensures InOrder(OriginsOfStops(t, stops[..k]))
    ensures forall at :: at in OriginsOfStops(t, stops[..k]) <==> at.0 == t && 0 <= at.1 < k && Emits(stops[at.1])
  {
    if k > 0 {
      hide Emits, InOrder;
      var n := k - 1;
      OriginsOfStopsInOrder(t, stops, n);
      assert stops[..k][..n] == stops[..n] && stops[..k][n] == stops[n];
      var last := if Emits(stops[n]) then [(t, n)] else [];
      assert OriginsOfStops(t, stops[..k]) == OriginsOfStops(t, stops[..n]) + last;
      OneIsInOrder(last);
      InOrderConcat(OriginsOfStops(t, stops[..n]), last);
    } else {
      assert stops[..k] == [];
    }
  }

  lemma {:induction false} OriginsInOrder(trips: seq<TripUpdate>, k: nat)
    requires k <= |trips|
    ensures InOrder(Origins(trips[..k]))
    ensures forall at :: at in Origins(trips[..k]) <==> Reports(trips, at) && at.0 < k
  {
    if k > 0 {
      hide Emits, OriginsOfStops, InOrder;
      var n := k - 1;
      var stops := trips[n].stops;
      OriginsInOrder(trips, n);
      OriginsOfStopsInOrder(n, stops, |stops|);
      assert stops[..|stops|] == stops;
      assert trips[..k][..n] == trips[..n] && trips[..k][n] == trips[n];
      assert Origins(trips[..k]) == Origins(trips[..n]) + OriginsOfStops(n, stops);
      InOrderConcat(Origins(trips[..n]), OriginsOfStops(n, stops));
    } else {
      assert trips[..k] == [];
      OneIsInOrder([]);
    }
  }

  // Entries and the places they come from, side by side.
  ghost predicate Located(tz: int -> int, feed: Feed, schedule: ScheduleIndex, trips: seq<TripUpdate>,
                          entries: seq<Entry>, origins: seq<(int, int)>)
  {
    && |entries| == |origins|
    && forall i | 0 <= i < |origins| ::
         Reports(trips, origins[i]) && entries[i] == EntryAt(tz, feed, schedule, trips, origins[i])
  }

  lemma LocatedConcat(tz: int -> int, feed: Feed, schedule: ScheduleIndex, trips: seq<TripUpdate>,
                      a: seq<Entry>, b: seq<Entry>, x: seq<(int, int)>, y: seq<(int, int)>)
    requires Located(tz, feed, schedule, trips, a, x) && Located(tz, feed, schedule, trips, b, y)
    ensures Located(tz, feed, schedule, trips, a + b, x + y)
  {
    hide Reports, EntryAt;
    forall i | 0 <= i < |x + y|
      ensures Reports(trips, (x + y)[i]) && (a + b)[i] == EntryAt(tz, feed, schedule, trips, (x + y)[i])
    {
      if i < |x| {
        assert (x + y)[i] == x[i] && (a + b)[i] == a[i];
      } else {
        assert (x + y)[i] == y[i - |x|] && (a + b)[i] == b[i - |a|];
      }
    }
  }

  lemma OneIsLocated(tz: int -> int, feed: Feed, schedule: ScheduleIndex, trips: seq<TripUpdate>, e: Entry,
                     at: (int, int))
    requires Reports(trips, at) && e == EntryAt(tz, feed, schedule, trips, at)
    ensures Located(tz, feed, schedule, trips, [e], [at])
  {
  }

  lemma NothingIsLocated(tz: int -> int, feed: Feed, schedule: ScheduleIndex, trips: seq<TripUpdate>)
    ensures Located(tz, feed, schedule, trips, [], [])
  {
  }

  lemma {:induction false} StopsAreLocated(tz: int -> int, feed: Feed, schedule: ScheduleIndex, trips: seq<TripUpdate>,
                                           t: nat, k: nat)
    requires t < |trips| && k <= |trips[t].stops|
    ensures Located(tz, feed, schedule, trips, EntriesOfStops(Match(tz, feed, schedule, trips[t]), trips[t].stops[..k]),
              OriginsOfStops(t, trips[t].stops[..k]))
  {
    var (m, stops) := (Match(tz, feed, schedule, trips[t]), trips[t].stops);
    hide RowFor, Match, Emits, PreferenceOf, Located;
    if k > 0 {
      var n := k - 1;
      StopsAreLocated(tz, feed, schedule, trips, t, n);
      assert stops[..k][..n] == stops[..n] && stops[..k][n] == stops[n];
      if Emits(stops[n]) {
        MatchKeepsTrip(tz, feed, schedule, trips[t]);
        var e := Entry(RowFor(m, stops[n]), PreferenceOf(m.trip));
        OneIsLocated(tz, feed, schedule, trips, e, (t, n));
        LocatedConcat(tz, feed, schedule, trips, EntriesOfStops(m, stops[..n]), [e], OriginsOfStops(t, stops[..n]),
          [(t, n)]);
      }
    } else {
      assert stops[..k] == [];
      NothingIsLocated(tz, feed, schedule, trips);
    }
  }

  lemma {:induction false} EntriesAreLocated(tz: int -> int, feed: Feed, schedule: ScheduleIndex,
                                             trips: seq<TripUpdate>, k: nat)
    requires k <= |trips|
    ensures Located(tz, feed, schedule, trips, Entries(tz, feed, schedule, trips[..k]), Origins(trips[..k]))
  {
    hide RowFor, Match, Emits, PreferenceOf, Located, EntriesOfStops, OriginsOfStops;
    if k > 0 {
      var n := k - 1;
      var m := Match(tz, feed, schedule, trips[n]);
      EntriesAreLocated(tz, feed, schedule, trips, n);
      StopsAreLocated(tz, feed, schedule, trips, n, |trips[n].stops|);
      MatchKeepsTrip(tz, feed, schedule, trips[n]);
      assert trips[n].stops[..|trips[n].stops|] == trips[n].stops;
      assert trips[..k][..n] == trips[..n] && trips[..k][n] == trips[n];
      LocatedConcat(tz, feed, schedule, trips, Entries(tz, feed, schedule, trips[..n]), EntriesOfTrip(m),
        Origins(trips[..n]), OriginsOfStops(n, trips[n].stops));
    } else {
      assert trips[..k] == [];
      NothingIsLocated(tz, feed, schedule, trips);
    }
  }

  // A vehicle beats none; between two alike, the fresher trip timestamp wins.
  predicate Outranks(a: TripUpdate, b: TripUpdate) {
    (a.vehicleId.Some? && b.vehicleId.None?)
    || (a.vehicleId.Some? == b.vehicleId.Some? && Freshness(a) > Freshness(b))
  }

  // The update at one place of the feed is the one to take for its key: no other
  // offering the key outranks it, and it outranks every later one.
  ghost predicate Best(tz: int -> int, feed: Feed, schedule: ScheduleIndex, trips: seq<TripUpdate>, at: (int, int)) {
    && Reports(trips, at)
    && forall other | Reports(trips, other) && KeyOf(EntryAt(tz, feed, schedule, trips, other).row)
                                               == KeyOf(EntryAt(tz, feed, schedule, trips, at).row) ::
         !Outranks(trips[other.0], trips[at.0])
         && (Earlier(at, other) ==> Outranks(trips[at.0], trips[other.0]))
  }

  lemma OutranksByPreference(a: TripUpdate, b: TripUpdate)
    requires Timestamped(a) && Timestamped(b)
    ensures Outranks(a, b) <==> PreferenceOf(a) > PreferenceOf(b)
  {
    PreferenceIsLexicographic(b, a);
  }

  lemma WinnerIsBest(tz: int -> int, feed: Feed, schedule: ScheduleIndex, trips: seq<TripUpdate>, entries: seq<Entry>,
                     origins: seq<(int, int)>, key: RowKey, i: nat)
    requires Located(tz, feed, schedule, trips, entries, origins) && InOrder(origins) && Wins(entries, key, i)
    requires forall at | Reports(trips, at) :: at in origins
    requires forall trip | trip in trips :: Timestamped(trip)
    ensures i < |origins| && Best(tz, feed, schedule, trips, origins[i])
    ensures entries[i] == EntryAt(tz, feed, schedule, trips, origins[i])
  {
    hide Freshness, RowFor, Match, Emits, KeyOf, Outranks, Timestamped;
    var at := origins[i];
    forall other | Reports(trips, other) && KeyOf(EntryAt(tz, feed, schedule, trips, other).row) == key
      ensures !Outranks(trips[other.0], trips[at.0])
      ensures Earlier(at, other) ==> Outranks(trips[at.0], trips[other.0])
    {
      var j: nat :| j < |origins| && origins[j] == other;
      assert entries[j] == EntryAt(tz, feed, schedule, trips, other);
      OutranksByPreference(trips[at.0], trips[other.0]);
      OutranksByPreference(trips[other.0], trips[at.0]);
    }
  }

  // Every row of the output is the row of the last update of the greatest rank
  // among those that offer its key.
  lemma RowIsFromTheBestUpdate(tz: int -> int, feed: Feed, schedule: ScheduleIndex, rows: seq<ObservationRow>,
                               stats: Stats, r: nat)
    requires IsTransform(tz, feed, schedule, rows, stats) && r < |rows|
    requires forall trip | trip in feed.tripUpdates :: Timestamped(trip)
    ensures exists at | Reports(feed.tripUpdates, at) ::
              Best(tz, feed, schedule, feed.tripUpdates, at)
              && rows[r] == EntryAt(tz, feed, schedule, feed.tripUpdates, at).row
              && Carries(rows[r], feed, feed.tripUpdates[at.0], feed.tripUpdates[at.0].stops[at.1])
  {
    hide Entries, Origins, CountTrips, CountedAll, FirstAppearances, Located, InOrder, Best;
    var trips := feed.tripUpdates;
    var entries, origins := Entries(tz, feed, schedule, trips), Origins(trips);
    assert trips[..|trips|] == trips;
    EntriesAreLocated(tz, feed, schedule, trips, |trips|);
    OriginsInOrder(trips, |trips|);
    var key := FirstAppearances(entries)[r];
    var i: nat :| i < |entries| && Wins(entries, key, i) && rows[r] == entries[i].row;
    WinnerIsBest(tz, feed, schedule, trips, entries, origins, key, i);
    var (trip, stop) := (trips[origins[i].0], trips[origins[i].0].stops[origins[i].1]);
    RowCarriesItsStop(tz, feed, schedule, trip, stop);
  }
}
