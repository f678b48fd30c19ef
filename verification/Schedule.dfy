// The schedule cache and its calendar expansion: src/db/schedule.ts, and the
// direct SQL form of the calendar in sql/005_coverage.sql.
module Schedule {
  import opened Wrappers
  import Calendar
  import opened Transform

  // -- The static tables of one feed version ------------------------------------

  datatype CalendarRow = CalendarRow(
    serviceId: string, monday: bool, tuesday: bool, wednesday: bool, thursday: bool, friday: bool,
    saturday: bool, sunday: bool, startDate: int, endDate: int)

  // exception_type 1 adds service on a date and 2 removes it.
  datatype ExceptionRow = ExceptionRow(serviceId: string, date: int, exceptionType: int)

  datatype TripRow = TripRow(tripId: string, serviceId: string)

  datatype StopTimeRow = StopTimeRow(tripId: string, stopSequence: nat, arrivalSeconds: int)

  datatype Tables = Tables(
    calendar: seq<CalendarRow>, exceptions: seq<ExceptionRow>, trips: seq<TripRow>, stopTimes: seq<StopTimeRow>)

  // The tables' primary keys.
  ghost predicate KeysUnique(t: Tables) {
    && (forall i, j | 0 <= i < j < |t.calendar| :: t.calendar[i].serviceId != t.calendar[j].serviceId)
    && (forall i, j | 0 <= i < j < |t.exceptions| ::
          !(t.exceptions[i].serviceId == t.exceptions[j].serviceId && t.exceptions[i].date == t.exceptions[j].date))
    && (forall i, j | 0 <= i < j < |t.trips| :: t.trips[i].tripId != t.trips[j].tripId)
    && (forall i, j | 0 <= i < j < |t.stopTimes| ::
          !(t.stopTimes[i].tripId == t.stopTimes[j].tripId
            && t.stopTimes[i].stopSequence == t.stopTimes[j].stopSequence))
  }

  // -- The calendar, read directly -------------------------------------------------

  // The pattern of a calendar row, by day name as the SQL has it.
  function DayName(date: int): string {
    ["Sunday", "Monday", "Tuesday", "Wednesday", "Thursday", "Friday", "Saturday"][Calendar.DayOfWeek(date)]
  }

  predicate InPattern(row: CalendarRow, date: int) {
    && row.startDate <= date <= row.endDate
    && ((DayName(date) == "Monday" && row.monday) || (DayName(date) == "Tuesday" && row.tuesday)
        || (DayName(date) == "Wednesday" && row.wednesday) || (DayName(date) == "Thursday" && row.thursday)
        || (DayName(date) == "Friday" && row.friday) || (DayName(date) == "Saturday" && row.saturday)
        || (DayName(date) == "Sunday" && row.sunday))
  }

  ghost predicate InCalendar(t: Tables, service: string, date: int) {
    exists row | row in t.calendar :: row.serviceId == service && InPattern(row, date)
  }

  ghost predicate HasException(t: Tables, service: string, date: int, exceptionType: int) {
    ExceptionRow(service, date, exceptionType) in t.exceptions
  }

  // active_services
  ghost predicate ActiveInSql(t: Tables, service: string, date: int) {
    (InCalendar(t, service, date) && !HasException(t, service, date, 2)) || HasException(t, service, date, 1)
  }

  // An exception row of any type other than 1 removes service, as the loader's
  // else branch does.
  ghost predicate Active(t: Tables, service: string, date: int) {
    if exists row | row in t.exceptions :: row.serviceId == service && row.date == date
    then HasException(t, service, date, 1)
    else InCalendar(t, service, date)
  }

  // The two readings of the calendar differ exactly where an exception of a type
  // other than 1 and 2 sits on a date its service would run.
  lemma CalendarsAgreeExactlyWhen(t: Tables, service: string, date: int)
    requires KeysUnique(t)
    ensures (Active(t, service, date) <==> ActiveInSql(t, service, date)) <==>
            !(InCalendar(t, service, date)
              && exists row | row in t.exceptions ::
                   row.serviceId == service && row.date == date && row.exceptionType !in {1, 2})
  {
    if row :| row in t.exceptions && row.serviceId == service && row.date == date {
      assert row == ExceptionRow(service, date, row.exceptionType);
      forall other | other in t.exceptions && other.serviceId == service && other.date == date
        ensures other == row
      {
      }
    }
  }

  // -- The calendar, expanded day by day ---------------------------------------------

  type DatesByService = map<string, set<int>>

  ghost predicate Expanded(t: Tables, active: DatesByService) {
    forall service, date :: (service in active && date in active[service]) <==> Active(t, service, date)
  }

  // The weekdays array, Sunday first, indexed by getUTCDay.
  function Weekdays(row: CalendarRow): (w: seq<bool>)
    ensures |w| == 7
  {
    [row.sunday, row.monday, row.tuesday, row.wednesday, row.thursday, row.friday, row.saturday]
  }

  lemma DayNamesDistinct()
    ensures "Sunday"[0] == 'S' && "Sunday"[1] == 'u' && "Saturday"[1] == 'a' && |"Sunday"| == 6 && |"Monday"| == 6
    ensures |"Tuesday"| == 7 && |"Wednesday"| == 9 && |"Thursday"| == 8 && |"Friday"| == 6 && |"Saturday"| == 8
    ensures "Monday"[0] == 'M' && "Friday"[0] == 'F' && "Thursday"[0] == 'T'
  {
  }

  lemma WeekdaysByName(row: CalendarRow, date: int)
    ensures row.startDate <= date <= row.endDate && Weekdays(row)[Calendar.DayOfWeek(date)] <==> InPattern(row, date)
  {
    hide Calendar.DayOfWeek;
    DayNamesDistinct();
  }

  // The inner loop: the dates of one calendar row.
  method ExpandRow(row: CalendarRow) returns (dates: set<int>)
    ensures forall date :: date in dates <==> InPattern(row, date)
  {
    var weekdays := Weekdays(row);
    dates := {};
    var date := row.startDate;
    assert forall d | InPattern(row, d) :: row.startDate <= d <= row.endDate;
    hide InPattern;
    while date <= row.endDate
      invariant row.startDate <= date
      invariant forall d :: d in dates <==> d < date && InPattern(row, d)
      invariant forall d | InPattern(row, d) :: row.startDate <= d <= row.endDate
      decreases row.endDate + 1 - date
    {
      WeekdaysByName(row, date);
      if weekdays[Calendar.DayOfWeek(date)] {
        dates := dates + {date};
      }
      date := date + 1;
    }
  }

  // The state of the loader after some calendar rows and some exception rows.
  ghost predicate Loaded(rows: seq<CalendarRow>, exceptions: seq<ExceptionRow>, active: DatesByService) {
    Expanded(Tables(rows, exceptions, [], []), active)
  }

  ghost predicate CalendarKeys(rows: seq<CalendarRow>) {
    forall i, j | 0 <= i < j < |rows| :: rows[i].serviceId != rows[j].serviceId
  }

  ghost predicate ExceptionKeys(rows: seq<ExceptionRow>) {
    forall i, j | 0 <= i < j < |rows| :: !(rows[i].serviceId == rows[j].serviceId && rows[i].date == rows[j].date)
  }

  lemma CalendarStep(rows: seq<CalendarRow>, row: CalendarRow, active: DatesByService, dates: set<int>)
    requires CalendarKeys(rows + [row]) && Loaded(rows, [], active)
    requires forall date :: date in dates <==> InPattern(row, date)
    ensures Loaded(rows + [row], [], active[row.serviceId := dates])
  {
    hide InPattern;
    var before := Tables(rows, [], [], []);
    var after := Tables(rows + [row], [], [], []);
    forall earlier | earlier in rows
      ensures earlier.serviceId != row.serviceId
    {
      var i :| 0 <= i < |rows| && rows[i] == earlier;
      assert (rows + [row])[i] == earlier && (rows + [row])[|rows|] == row;
    }
    forall service, date
      ensures InCalendar(after, service, date) <==>
              if service == row.serviceId then InPattern(row, date) else InCalendar(before, service, date)
    {
      assert row in after.calendar;
      if other :| other in before.calendar && other.serviceId == service && InPattern(other, date) {
        assert other in after.calendar;
      }
    }
    forall service, date
      ensures Active(before, service, date) == InCalendar(before, service, date)
      ensures Active(after, service, date) == InCalendar(after, service, date)
    {
    }
  }

  lemma ExceptionStep(calendar: seq<CalendarRow>, rows: seq<ExceptionRow>, row: ExceptionRow,
                      active: DatesByService, dates: set<int>)
    requires ExceptionKeys(rows + [row]) && Loaded(calendar, rows, active)
    requires dates == if row.serviceId in active then active[row.serviceId] else {}
    ensures Loaded(calendar, rows + [row],
                   active[row.serviceId := if row.exceptionType == 1 then dates + {row.date} else dates - {row.date}])
  {
    hide InPattern;
    var before := Tables(calendar, rows, [], []);
    var after := Tables(calendar, rows + [row], [], []);
    forall earlier | earlier in rows
      ensures !(earlier.serviceId == row.serviceId && earlier.date == row.date)
    {
      var i :| 0 <= i < |rows| && rows[i] == earlier;
      assert (rows + [row])[i] == earlier && (rows + [row])[|rows|] == row;
    }
    assert row in after.exceptions && row == ExceptionRow(row.serviceId, row.date, row.exceptionType);
    forall service, date
      ensures Active(after, service, date) <==>
              if service == row.serviceId && date == row.date then row.exceptionType == 1
              else Active(before, service, date)
    {
      assert InCalendar(before, service, date) == InCalendar(after, service, date);
      if other :| other in before.exceptions && other.serviceId == service && other.date == date {
        assert other in after.exceptions;
      }
    }
  }

  lemma LoadedStart()
    ensures Loaded([], [], map[])
  {
  }

  lemma LoadedIsExpanded(t: Tables, active: DatesByService)
    requires Loaded(t.calendar, t.exceptions, active)
    ensures Expanded(t, active)
  {
    hide InPattern;
    var loaded := Tables(t.calendar, t.exceptions, [], []);
    forall service, date
      ensures Active(loaded, service, date) == Active(t, service, date)
    {
      assert InCalendar(loaded, service, date) == InCalendar(t, service, date);
    }
  }

  // #loadCalendar
  method LoadCalendar(t: Tables) returns (active: DatesByService)
    requires KeysUnique(t)
    ensures Expanded(t, active)
  {
    hide InPattern, Loaded;
    active := map[];
    assert CalendarKeys(t.calendar) && ExceptionKeys(t.exceptions);
    LoadedStart();
    for i := 0 to |t.calendar|
      invariant Loaded(t.calendar[..i], [], active)
    {
      var row := t.calendar[i];
      var dates := ExpandRow(row);
      assert t.calendar[..i + 1] == t.calendar[..i] + [row];
      CalendarStep(t.calendar[..i], row, active, dates);
      active := active[row.serviceId := dates];
    }
    assert t.calendar[..|t.calendar|] == t.calendar && t.exceptions[..0] == [];
    for i := 0 to |t.exceptions|
      invariant Loaded(t.calendar, t.exceptions[..i], active)
    {
      var row := t.exceptions[i];
      var dates := if row.serviceId in active then active[row.serviceId] else {};
      assert t.exceptions[..i + 1] == t.exceptions[..i] + [row];
      ExceptionStep(t.calendar, t.exceptions[..i], row, active, dates);
      if row.exceptionType == 1 {
        dates := dates + {row.date};
      } else {
        dates := dates - {row.date};
      }
      active := active[row.serviceId := dates];
    }
    assert t.exceptions[..|t.exceptions|] == t.exceptions;
    LoadedIsExpanded(t, active);
  }

  // The expansion read the rows of both tables in whatever order the queries
  // returned them; two orders of the same rows say the same of every service.
  lemma RowOrderIsImmaterial(t: Tables, u: Tables, active: DatesByService, other: DatesByService, service: string)
    requires KeysUnique(t) && KeysUnique(u)
    requires multiset(t.calendar) == multiset(u.calendar) && multiset(t.exceptions) == multiset(u.exceptions)
    requires Expanded(t, active) && Expanded(u, other)
    ensures (if service in active then active[service] else {}) == (if service in other then other[service] else {})
  {
    hide InPattern;
    forall row: CalendarRow
      ensures row in t.calendar <==> row in u.calendar
    {
      assert row in multiset(t.calendar) <==> row in multiset(u.calendar);
    }
    forall row: ExceptionRow
      ensures row in t.exceptions <==> row in u.exceptions
    {
      assert row in multiset(t.exceptions) <==> row in multiset(u.exceptions);
    }
    var dates := if service in active then active[service] else {};
    var otherDates := if service in other then other[service] else {};
    forall date
      ensures date in dates <==> date in otherDates
    {
      assert InCalendar(t, service, date) == InCalendar(u, service, date);
      assert Active(t, service, date) == Active(u, service, date);
    }
    assert dates == otherDates;
  }

  // -- A trip, joined afresh -----------------------------------------------------------

  ghost predicate IsStops(rows: seq<StopTimeRow>, tripId: string, stops: map<nat, int>) {
    forall sequence: nat, arrival :: (sequence in stops && stops[sequence] == arrival) <==>
                                     StopTimeRow(tripId, sequence, arrival) in rows
  }

  ghost predicate HasStops(rows: seq<StopTimeRow>, tripId: string) {
    exists row | row in rows :: row.tripId == tripId
  }

  // What querying the tables of one feed version says of a trip: nothing unless
  // it has both a trip row and stop times, and otherwise the dates its service is
  // active on and the arrival of each of its stops.
  ghost predicate IsFreshJoin(t: Tables, feedVersionId: int, tripId: string, found: Option<TripSchedule>) {
    match found
    case None => !((exists trip | trip in t.trips :: trip.tripId == tripId) && HasStops(t.stopTimes, tripId))
    case Some(schedule) =>
      && HasStops(t.stopTimes, tripId)
      && IsStops(t.stopTimes, tripId, schedule.arrivalSeconds)
      && schedule.feedVersionId == feedVersionId
      && exists trip | trip in t.trips ::
           trip.tripId == tripId && forall date :: date in schedule.activeDates <==> Active(t, trip.serviceId, date)
  }

  // The join has one answer, so equal joins are equal lookups.
  lemma FreshJoinIsUnique(t: Tables, feedVersionId: int, tripId: string, a: Option<TripSchedule>,
                          b: Option<TripSchedule>)
    requires KeysUnique(t) && IsFreshJoin(t, feedVersionId, tripId, a) && IsFreshJoin(t, feedVersionId, tripId, b)
    ensures a == b
  {
    hide Active;
    if a.Some? && b.Some? {
      var tripA :| tripA in t.trips && tripA.tripId == tripId
                   && forall date :: date in a.value.activeDates <==> Active(t, tripA.serviceId, date);
      var tripB :| tripB in t.trips && tripB.tripId == tripId
                   && forall date :: date in b.value.activeDates <==> Active(t, tripB.serviceId, date);
      assert tripA == tripB;
      forall date
        ensures date in a.value.activeDates <==> date in b.value.activeDates
      {
      }
      assert a.value.activeDates == b.value.activeDates;
      forall sequence | sequence in a.value.arrivalSeconds
        ensures sequence in b.value.arrivalSeconds
                && a.value.arrivalSeconds[sequence] == b.value.arrivalSeconds[sequence]
      {
        assert StopTimeRow(tripId, sequence, a.value.arrivalSeconds[sequence]) in t.stopTimes;
      }
      forall sequence | sequence in b.value.arrivalSeconds
        ensures sequence in a.value.arrivalSeconds
      {
        assert StopTimeRow(tripId, sequence, b.value.arrivalSeconds[sequence]) in t.stopTimes;
      }
      assert a.value.arrivalSeconds == b.value.arrivalSeconds;
    }
  }

  // -- A trip, joined against some expansion ---------------------------------------------

  function DatesOf(active: DatesByService, service: string): set<int> {
    if service in active then active[service] else {}
  }

  // What loading a trip stores: the tables of the bound version, but the dates of
  // whatever expansion the cache holds.
  ghost predicate IsJoin(t: Tables, active: DatesByService, feedVersionId: int, tripId: string,
                         found: Option<TripSchedule>) {
    match found
    case None => !((exists trip | trip in t.trips :: trip.tripId == tripId) && HasStops(t.stopTimes, tripId))
    case Some(schedule) =>
      && HasStops(t.stopTimes, tripId)
      && IsStops(t.stopTimes, tripId, schedule.arrivalSeconds)
      && schedule.feedVersionId == feedVersionId
      && exists trip | trip in t.trips ::
         trip.tripId == tripId && schedule.activeDates == DatesOf(active, trip.serviceId)
  }

  // Two calendars that give a service the same dates.
  ghost predicate ExpandAlike(a: Tables, b: Tables, service: string) {
    forall date :: Active(a, service, date) <==> Active(b, service, date)
  }

  // ... for the service a trip has in its version's tables.
  ghost predicate TripExpandsAlike(a: Tables, t: Tables, tripId: string) {
    forall trip | trip in t.trips && trip.tripId == tripId :: ExpandAlike(a, t, trip.serviceId)
  }

  lemma DatesAreActive(calendar: Tables, active: DatesByService, service: string)
    requires Expanded(calendar, active)
    ensures forall date :: date in DatesOf(active, service) <==> Active(calendar, service, date)
  {
    hide Active;
  }

  // The stored trip is the fresh join exactly when the trip is not in the version,
  // or the calendar that was expanded gives its service the version's own dates.
  lemma JoinIsFreshExactlyWhen(t: Tables, calendar: Tables, active: DatesByService, feedVersionId: int, tripId: string,
                               found: Option<TripSchedule>)
    requires KeysUnique(t) && Expanded(calendar, active) && IsJoin(t, active, feedVersionId, tripId, found)
    ensures IsFreshJoin(t, feedVersionId, tripId, found) <==> found.None? || TripExpandsAlike(calendar, t, tripId)
  {
    hide Active, IsStops, HasStops, Expanded;
    if found.Some? {
      var trip :| trip in t.trips && trip.tripId == tripId
        && found.value.activeDates == DatesOf(active, trip.serviceId);
      assert forall other | other in t.trips && other.tripId == tripId :: other == trip;
      DatesAreActive(calendar, active, trip.serviceId);
    }
  }

  // -- Feed versions --------------------------------------------------------------------

  datatype Version = Version(id: int, loadedAt: int, complete: bool, startDate: int, endDate: int)

  // The rows a query considers: complete versions, and with a date only those
  // valid on it.
  predicate Eligible(version: Version, onDate: Option<int>) {
    version.complete && (onDate.Some? ==> version.startDate <= onDate.value <= version.endDate)
  }

  ghost predicate IsLatest(versions: seq<Version>, onDate: Option<int>, chosen: Version) {
    && chosen in versions && Eligible(chosen, onDate)
    && forall v | v in versions && Eligible(v, onDate) :: v.loadedAt <= chosen.loadedAt
  }

  // `order by loaded_at desc limit 1`
  function Latest(versions: seq<Version>, onDate: Option<int>): (chosen: Option<Version>)
    ensures chosen.Some? ==> IsLatest(versions, onDate, chosen.value)
    ensures chosen.None? ==> forall v | v in versions :: !Eligible(v, onDate)
  {
    if versions == [] then None
    else
      var rest := Latest(versions[1..], onDate);
      if Eligible(versions[0], onDate) && (rest.None? || versions[0].loadedAt >= rest.value.loadedAt)
      then Some(versions[0])
      else rest
  }

  // What `initialise` may bind on a date: the latest version valid on it, failing
  // that the latest complete one, and nothing only when none is complete.
  ghost predicate IsBinding(versions: seq<Version>, onDate: int, bound: Option<int>) {
    match bound
    case None => forall v | v in versions :: !Eligible(v, None)
    case Some(id) =>
      exists chosen: Version :: chosen.id == id &&
        IsLatest(versions,
                 if exists v | v in versions :: Eligible(v, Some(onDate)) then Some(onDate) else None,
                 chosen)
  }

  // In the versions' own fields: of the complete versions valid on the date one
  // that none was loaded after; if there is none, such a one of all that are
  // complete; and only if none is complete, no version.
  lemma BindingIsNewestValid(versions: seq<Version>, onDate: int, bound: Option<int>)
    requires IsBinding(versions, onDate, bound)
    ensures (exists v | v in versions :: v.complete && v.startDate <= onDate <= v.endDate) ==>
              exists v | v in versions :: bound == Some(v.id) && v.complete && v.startDate <= onDate <= v.endDate
                && forall u | u in versions && u.complete && u.startDate <= onDate <= u.endDate ::
                   u.loadedAt <= v.loadedAt
    ensures (forall v | v in versions :: !(v.complete && v.startDate <= onDate <= v.endDate))
            && (exists v | v in versions :: v.complete) ==>
              exists v | v in versions :: bound == Some(v.id) && v.complete
                && forall u | u in versions && u.complete :: u.loadedAt <= v.loadedAt
    ensures (forall v | v in versions :: !v.complete) ==> bound.None?
  {
  }

  // -- The cache ------------------------------------------------------------------------

  // The cache's fields, and which version's calendar the dates were expanded from.
  datatype Cache = Cache(
    bound: Option<int>, calendarOf: Option<int>, dates: DatesByService, trips: map<string, Option<TripSchedule>>)

  const EMPTY_CACHE: Cache := Cache(None, None, map[], map[])

  // How the queries of `initialise` turn out. The calendar is read last, when the
  // version is already bound and the trips cleared.
  datatype Loading = VersionQueryFailed | CalendarQueryFailed | Completed

  datatype Call =
    | Initialise(versions: seq<Version>, onDate: int, loading: Loading)
    | ClearTrips
    | IndexFor(tripIds: set<string>, queries: bool)

  ghost predicate NoneComplete(versions: seq<Version>) {
    forall v | v in versions :: !v.complete
  }

  // Whether `initialise` runs to its end: its calendar query may fail only when
  // there is no version to read it for.
  ghost predicate Completes(versions: seq<Version>, loading: Loading) {
    loading == Completed || (loading == CalendarQueryFailed && NoneComplete(versions))
  }

  ghost predicate IsInitialised(database: map<int, Tables>, c: Cache, bound: Option<int>, loading: Loading,
                                after: Cache) {
    if bound.None? then after == c.(bound := None)
    else if loading == CalendarQueryFailed then after == c.(bound := bound, trips := map[])
    else
      bound.value in database && Expanded(database[bound.value], after.dates)
      && after == Cache(bound, bound, after.dates, map[])
  }

  ghost predicate CacheJoins(t: Tables, dates: DatesByService, feedVersionId: int,
                             trips: map<string, Option<TripSchedule>>) {
    forall tripId | tripId in trips :: IsJoin(t, dates, feedVersionId, tripId, trips[tripId])
  }

  // What each call does to the cache.
  ghost predicate IsCall(database: map<int, Tables>, c: Cache, call: Call, after: Cache) {
    match call
    case Initialise(versions, onDate, loading) =>
      if loading == VersionQueryFailed then after == c
      else IsBinding(versions, onDate, after.bound) && IsInitialised(database, c, after.bound, loading, after)
    case ClearTrips => after == c.(trips := map[])
    case IndexFor(tripIds, queries) =>
      if c.bound.None? || !queries then after == c
      else
        && c.bound.value in database
        && after == c.(trips := after.trips)
        && after.trips.Keys == c.trips.Keys + tripIds
        && (forall tripId | tripId in c.trips :: after.trips[tripId] == c.trips[tripId])
        && CacheJoins(database[c.bound.value], c.dates, c.bound.value, after.trips)
  }

  const NO_TABLES: Tables := Tables([], [], [], [])

  ghost function CalendarTables(database: map<int, Tables>, calendarOf: Option<int>): Tables
    requires calendarOf.Some? ==> calendarOf.value in database
  {
    if calendarOf.None? then NO_TABLES else database[calendarOf.value]
  }

  // What every call keeps: the dates are some version's, and every cached trip,
  // negative ones included, is the bound version's trip with those dates.
  ghost predicate CacheInv(database: map<int, Tables>, c: Cache) {
    && (forall id | id in database :: KeysUnique(database[id]))
    && (c.calendarOf.Some? ==> c.calendarOf.value in database)
    && Expanded(CalendarTables(database, c.calendarOf), c.dates)
    && (c.bound.Some? ==>
          c.bound.value in database && CacheJoins(database[c.bound.value], c.dates, c.bound.value, c.trips))
  }

  datatype QueryFailed = QueryRejected

  function IdsOf(tripIds: seq<string>): set<string> {
    set tripId | tripId in tripIds
  }

  lemma KnownAndMissing(known: set<string>, tripIds: seq<string>, missing: set<string>)
    requires forall tripId :: tripId in missing <==> tripId in tripIds && tripId !in known
    ensures known + missing == known + IdsOf(tripIds)
    ensures missing == {} ==> known == known + IdsOf(tripIds)
  {
  }

  lemma EmptyCacheIsValid(database: map<int, Tables>)
    requires forall id | id in database :: KeysUnique(database[id])
    ensures CacheInv(database, EMPTY_CACHE)
  {
    LoadedStart();
  }

  lemma NoTripsJoin(t: Tables, dates: DatesByService, feedVersionId: int)
    ensures CacheJoins(t, dates, feedVersionId, map[])
  {
  }

  // The cache once the trips in done have been added to what it held before.
  ghost predicate AfterLoading(t: Tables, dates: DatesByService, feedVersionId: int,
                               before: map<string, Option<TripSchedule>>, done: set<string>,
                               trips: map<string, Option<TripSchedule>>) {
    && trips.Keys == before.Keys + done
    && (forall tripId | tripId in before :: tripId in trips && trips[tripId] == before[tripId])
    && CacheJoins(t, dates, feedVersionId, trips)
  }

  lemma NoTripsLoaded(t: Tables, dates: DatesByService, feedVersionId: int, trips: map<string, Option<TripSchedule>>,
                      wanted: set<string>)
    requires CacheJoins(t, dates, feedVersionId, trips)
    ensures AfterLoading(t, dates, feedVersionId, trips, wanted - wanted, trips)
  {
  }

  lemma TripLoaded(t: Tables, dates: DatesByService, feedVersionId: int, before: map<string, Option<TripSchedule>>,
                   wanted: set<string>, todo: set<string>, tripId: string, found: Option<TripSchedule>,
                   trips: map<string, Option<TripSchedule>>)
    requires AfterLoading(t, dates, feedVersionId, before, wanted - (todo + {tripId}), trips)
    requires tripId in wanted && tripId !in todo && tripId !in before && IsJoin(t, dates, feedVersionId, tripId, found)
    ensures AfterLoading(t, dates, feedVersionId, before, wanted - todo, trips[tripId := found])
  {
    hide IsJoin;
    assert wanted - todo == (wanted - (todo + {tripId})) + {tripId};
  }

  lemma AllTripsLoaded(t: Tables, dates: DatesByService, feedVersionId: int, before: map<string, Option<TripSchedule>>,
                       wanted: set<string>, trips: map<string, Option<TripSchedule>>)
    requires AfterLoading(t, dates, feedVersionId, before, wanted, trips)
    ensures trips.Keys == before.Keys + wanted
    ensures forall tripId | tripId in before :: tripId in trips && trips[tripId] == before[tripId]
    ensures CacheJoins(t, dates, feedVersionId, trips)
  {
    hide IsJoin;
  }

  ghost predicate StopsLoaded(rows: seq<StopTimeRow>, wanted: set<string>, byTrip: map<string, map<nat, int>>) {
    forall tripId | tripId in wanted ::
      && (tripId in byTrip <==> HasStops(rows, tripId))
      && (tripId in byTrip ==> IsStops(rows, tripId, byTrip[tripId]))
  }

  ghost predicate ServicesLoaded(rows: seq<TripRow>, wanted: set<string>, serviceIds: map<string, string>) {
    forall tripId | tripId in wanted ::
      && (tripId in serviceIds <==> exists trip | trip in rows :: trip.tripId == tripId)
      && (tripId in serviceIds ==> TripRow(tripId, serviceIds[tripId]) in rows)
  }

  ghost predicate StopKeys(rows: seq<StopTimeRow>) {
    forall i, j | 0 <= i < j < |rows| ::
      !(rows[i].tripId == rows[j].tripId && rows[i].stopSequence == rows[j].stopSequence)
  }

  lemma StopStep(rows: seq<StopTimeRow>, row: StopTimeRow, wanted: set<string>,
                 byTrip: map<string, map<nat, int>>, stops: map<nat, int>)
    requires StopKeys(rows + [row]) && StopsLoaded(rows, wanted, byTrip) && row.tripId in wanted
    requires stops == if row.tripId in byTrip then byTrip[row.tripId] else map[]
    ensures StopsLoaded(rows + [row], wanted, byTrip[row.tripId := stops[row.stopSequence := row.arrivalSeconds]])
  {
    var all := rows + [row];
    var after := byTrip[row.tripId := stops[row.stopSequence := row.arrivalSeconds]];
    forall earlier | earlier in rows
      ensures !(earlier.tripId == row.tripId && earlier.stopSequence == row.stopSequence)
    {
      var i :| 0 <= i < |rows| && rows[i] == earlier;
      assert all[i] == earlier && all[|rows|] == row;
    }
    assert row in all && row == StopTimeRow(row.tripId, row.stopSequence, row.arrivalSeconds);
    assert IsStops(rows, row.tripId, stops) by {
      if row.tripId !in byTrip {
        assert !HasStops(rows, row.tripId);
      }
    }
    forall tripId | tripId in wanted
      ensures tripId in after <==> HasStops(all, tripId)
      ensures tripId in after ==> IsStops(all, tripId, after[tripId])
    {
      if tripId != row.tripId {
        if HasStops(rows, tripId) {
          var other :| other in rows && other.tripId == tripId;
          assert other in all;
        }
      }
    }
  }

  lemma StopSkipped(rows: seq<StopTimeRow>, row: StopTimeRow, wanted: set<string>, byTrip: map<string, map<nat, int>>)
    requires StopsLoaded(rows, wanted, byTrip) && row.tripId !in wanted
    ensures StopsLoaded(rows + [row], wanted, byTrip)
  {
    forall tripId | tripId in wanted
      ensures HasStops(rows, tripId) <==> HasStops(rows + [row], tripId)
    {
      if HasStops(rows, tripId) {
        var other :| other in rows && other.tripId == tripId;
        assert other in rows + [row];
      }
    }
  }

  // The stop times of the wanted trips, one map a trip.
  method StopsByTrip(t: Tables, wanted: set<string>) returns (byTrip: map<string, map<nat, int>>)
    requires KeysUnique(t)
    ensures StopsLoaded(t.stopTimes, wanted, byTrip)
  {
    byTrip := map[];
    var rows := t.stopTimes;
    assert StopKeys(rows) && StopsLoaded(rows[..0], wanted, byTrip);
    hide StopsLoaded, KeysUnique;
    for i := 0 to |rows|
      invariant StopsLoaded(rows[..i], wanted, byTrip)
    {
      var row := rows[i];
      assert rows[..i + 1] == rows[..i] + [row];
      if row.tripId in wanted {
        var stops := if row.tripId in byTrip then byTrip[row.tripId] else map[];
        StopStep(rows[..i], row, wanted, byTrip, stops);
        byTrip := byTrip[row.tripId := stops[row.stopSequence := row.arrivalSeconds]];
      } else {
        StopSkipped(rows[..i], row, wanted, byTrip);
      }
    }
    assert rows[..|rows|] == rows;
  }

  method ServicesByTrip(t: Tables, wanted: set<string>) returns (serviceIds: map<string, string>)
    ensures ServicesLoaded(t.trips, wanted, serviceIds)
  {
    serviceIds := map[];
    for i := 0 to |t.trips|
      invariant ServicesLoaded(t.trips[..i], wanted, serviceIds)
    {
      var row := t.trips[i];
      assert t.trips[..i + 1] == t.trips[..i] + [row] && row == TripRow(row.tripId, row.serviceId);
      if row.tripId in wanted {
        serviceIds := serviceIds[row.tripId := row.serviceId];
      }
    }
    assert t.trips[..|t.trips|] == t.trips;
  }

  lemma FoundIsJoin(t: Tables, feedVersionId: int, wanted: set<string>, tripId: string, active: DatesByService,
                    byTrip: map<string, map<nat, int>>, serviceIds: map<string, string>, found: Option<TripSchedule>)
    requires tripId in wanted
    requires StopsLoaded(t.stopTimes, wanted, byTrip) && ServicesLoaded(t.trips, wanted, serviceIds)
    requires found == if tripId in serviceIds && tripId in byTrip
                      then Some(TripSchedule(feedVersionId, DatesOf(active, serviceIds[tripId]), byTrip[tripId]))
                      else None
    ensures IsJoin(t, active, feedVersionId, tripId, found)
  {
    hide IsStops, HasStops;
    if found.Some? {
      assert TripRow(tripId, serviceIds[tripId]) in t.trips;
    }
  }

  class ScheduleCache {
    const database: map<int, Tables>
    var feedVersionId: Option<int>
    var activeDatesByService: DatesByService
    var trips: map<string, Option<TripSchedule>>
    ghost var calendarOf: Option<int>

    ghost function State(): Cache
      reads this
    {
      Cache(feedVersionId, calendarOf, activeDatesByService, trips)
    }

    ghost predicate Valid()
      reads this
    {
      CacheInv(database, State())
    }

    constructor (database: map<int, Tables>)
      requires forall id | id in database :: KeysUnique(database[id])
      ensures Valid() && this.database == database && State() == EMPTY_CACHE
    {
      this.database := database;
      feedVersionId, activeDatesByService, trips, calendarOf := None, map[], map[], None;
      new;
      EmptyCacheIsValid(database);
    }

    // Rejects when a query does, having already bound the version if it was the
    // calendar's.
    method Initialise(versions: seq<Version>, onDate: int, loading: Loading) returns (ok: bool)
      requires Valid()
      requires forall v | v in versions :: v.id in database
      modifies this
      ensures Valid() && IsCall(database, old(State()), Call.Initialise(versions, onDate, loading), State())
      ensures ok <==> loading == Completed || (loading == CalendarQueryFailed && feedVersionId.None?)
      // What it binds, unless the versions cannot be read.
      ensures loading == VersionQueryFailed ==> State() == old(State())
      ensures loading != VersionQueryFailed
              && (exists v | v in versions :: v.complete && v.startDate <= onDate <= v.endDate) ==>
                exists v | v in versions :: feedVersionId == Some(v.id)
                  && v.complete && v.startDate <= onDate <= v.endDate
                  && forall u | u in versions && u.complete && u.startDate <= onDate <= u.endDate ::
                       u.loadedAt <= v.loadedAt
      ensures loading != VersionQueryFailed
              && (forall v | v in versions :: !(v.complete && v.startDate <= onDate <= v.endDate))
              && (exists v | v in versions :: v.complete) ==>
                exists v | v in versions :: feedVersionId == Some(v.id) && v.complete
                  && forall u | u in versions && u.complete :: u.loadedAt <= v.loadedAt
      ensures loading != VersionQueryFailed && (forall v | v in versions :: !v.complete) ==> feedVersionId.None?
    {
      hide Expanded, KeysUnique, CacheJoins;
      if loading == VersionQueryFailed {
        return false;
      }
      var chosen := Latest(versions, Some(onDate));
      if chosen.None? {
        chosen := Latest(versions, None);
      }
      if chosen.None? {
        feedVersionId := None;
        return true;
      }
      feedVersionId := Some(chosen.value.id);
      trips := map[];
      NoTripsJoin(database[chosen.value.id], activeDatesByService, chosen.value.id);
      if loading == CalendarQueryFailed {
        return false;
      }
      activeDatesByService := LoadCalendar(database[chosen.value.id]);
      calendarOf := feedVersionId;
      NoTripsJoin(database[chosen.value.id], activeDatesByService, chosen.value.id);
      return true;
    }

    method ClearTrips()
      requires Valid()
      modifies this`trips
      ensures Valid() && IsCall(database, old(State()), Call.ClearTrips, State())
    {
      hide Expanded, KeysUnique, CacheJoins;
      trips := map[];
      if feedVersionId.Some? {
        NoTripsJoin(database[feedVersionId.value], activeDatesByService, feedVersionId.value);
      }
    }

    // The index holds, for each requested trip, what the cache then holds for it.
    // It is refused only when a trip must be loaded and a query fails.
    method IndexFor(tripIds: seq<string>, queries: bool) returns (index: Result<ScheduleIndex, QueryFailed>)
      requires Valid()
      modifies this`trips
      ensures Valid()
      ensures index.Failure? <==>
              feedVersionId.Some? && !queries && exists tripId | tripId in tripIds :: tripId !in old(trips)
      ensures IsCall(database, old(State()),
                Call.IndexFor(IdsOf(tripIds), queries || index.Success?), State())
      ensures index.Success? && feedVersionId.None? ==> index.value == map[]
      ensures index.Success? && feedVersionId.Some? ==> forall tripId | tripId in tripIds ::
                tripId in trips && Lookup(index.value, tripId) == trips[tripId]
    {
      hide Expanded, KeysUnique, CacheJoins;
      if feedVersionId.None? {
        return Success(map[]);
      }
      var missing := set tripId | tripId in tripIds && tripId !in trips;
      if missing != {} {
        if !queries {
          var tripId :| tripId in missing;
          return Failure(QueryRejected);
        }
        LoadTrips(missing);
      }
      KnownAndMissing(old(trips).Keys, tripIds, missing);
      index := Success(map tripId | tripId in trips && trips[tripId].Some? :: trips[tripId].value);
    }

    method LoadTrips(tripIds: set<string>)
      requires Valid() && feedVersionId.Some?
      requires forall tripId | tripId in tripIds :: tripId !in trips
      modifies this`trips
      ensures Valid()
      ensures trips.Keys == old(trips).Keys + tripIds
      ensures forall tripId | tripId in old(trips) :: trips[tripId] == old(trips)[tripId]
    {
      hide KeysUnique, IsJoin, HasStops, IsStops, AfterLoading, StopsLoaded, ServicesLoaded, Expanded, CacheJoins;
      var feedVersionId := feedVersionId.value;
      var t := database[feedVersionId];
      var byTrip := StopsByTrip(t, tripIds);
      var serviceIds := ServicesByTrip(t, tripIds);
      var todo := tripIds;
      NoTripsLoaded(t, activeDatesByService, feedVersionId, trips, tripIds);
      while todo != {}
        invariant todo <= tripIds
        invariant AfterLoading(t, activeDatesByService, feedVersionId, old(trips), tripIds - todo, trips)
        decreases |todo|
      {
        var tripId :| tripId in todo;
        var rest := todo - {tripId};
        assert todo == rest + {tripId};
        var found: Option<TripSchedule> := None;
        if tripId in serviceIds && tripId in byTrip {
          found := Some(TripSchedule(feedVersionId, DatesOf(activeDatesByService, serviceIds[tripId]), byTrip[tripId]));
        }
        FoundIsJoin(t, feedVersionId, tripIds, tripId, activeDatesByService, byTrip, serviceIds, found);
        TripLoaded(t, activeDatesByService, feedVersionId, old(trips), tripIds, rest, tripId, found, trips);
        trips := trips[tripId := found];
        todo := rest;
      }
      assert tripIds - todo == tripIds;
      AllTripsLoaded(t, activeDatesByService, feedVersionId, old(trips), tripIds, trips);
    }
  }

  // -- Any sequence of calls ---------------------------------------------------------------

  ghost predicate IsTrace(database: map<int, Tables>, caches: seq<Cache>, calls: seq<Call>) {
    && |caches| == |calls| + 1 && caches[0] == EMPTY_CACHE
    && (forall id | id in database :: KeysUnique(database[id]))
    && (forall call | call in calls && call.Initialise? :: forall v | v in call.versions :: v.id in database)
    && forall i | 0 <= i < |calls| :: IsCall(database, caches[i], calls[i], caches[i + 1])
  }

  lemma BindingIsVersion(versions: seq<Version>, onDate: int, bound: Option<int>)
    requires IsBinding(versions, onDate, bound) && bound.Some?
    ensures exists v | v in versions :: v.id == bound.value
  {
  }

  lemma CallKeepsInv(database: map<int, Tables>, c: Cache, call: Call, after: Cache)
    requires CacheInv(database, c) && IsCall(database, c, call, after)
    requires call.Initialise? ==> forall v | v in call.versions :: v.id in database
    ensures CacheInv(database, after)
  {
    hide Expanded, KeysUnique, CacheJoins, IsBinding;
    match call
    case Initialise(versions, onDate, loading) =>
      if loading != VersionQueryFailed && after.bound.Some? {
        BindingIsVersion(versions, onDate, after.bound);
        NoTripsJoin(database[after.bound.value], after.dates, after.bound.value);
      }
    case ClearTrips =>
      if c.bound.Some? {
        NoTripsJoin(database[c.bound.value], c.dates, c.bound.value);
      }
    case IndexFor(_, _) =>
  }

  lemma {:induction false} TraceKeepsInv(database: map<int, Tables>, caches: seq<Cache>, calls: seq<Call>, i: nat)
    requires IsTrace(database, caches, calls) && i <= |calls|
    ensures CacheInv(database, caches[i])
  {
    hide CacheInv, IsCall, KeysUnique;
    if i == 0 {
      EmptyCacheIsValid(database);
    } else {
      TraceKeepsInv(database, caches, calls, i - 1);
      assert calls[i - 1] in calls;
      assert IsCall(database, caches[i - 1], calls[i - 1], caches[i - 1 + 1]);
      CallKeepsInv(database, caches[i - 1], calls[i - 1], caches[i]);
    }
  }

  // The last initialise that chose a version, among the first i calls, read its
  // calendar to the end.
  ghost predicate LastLoadCompleted(caches: seq<Cache>, calls: seq<Call>, i: nat)
    requires |caches| == |calls| + 1 && i <= |calls|
  {
    i > 0 &&
    if calls[i - 1].Initialise? && calls[i - 1].loading != VersionQueryFailed && caches[i].bound.Some?
    then calls[i - 1].loading == Completed
    else LastLoadCompleted(caches, calls, i - 1)
  }

  lemma {:induction false} CompletedLoadIsBound(database: map<int, Tables>, caches: seq<Cache>, calls: seq<Call>,
                                                i: nat)
    requires IsTrace(database, caches, calls) && i <= |calls| && LastLoadCompleted(caches, calls, i)
    ensures caches[i].bound.Some? ==> caches[i].calendarOf == caches[i].bound
  {
    hide Expanded, KeysUnique, CacheJoins, IsBinding;
    assert IsCall(database, caches[i - 1], calls[i - 1], caches[i - 1 + 1]);
    if !(calls[i - 1].Initialise? && calls[i - 1].loading != VersionQueryFailed && caches[i].bound.Some?) {
      CompletedLoadIsBound(database, caches, calls, i - 1);
    }
  }

  lemma AlikeItself(t: Tables, tripId: string)
    ensures TripExpandsAlike(t, t, tripId)
  {
  }

  // After any calls, with queries failing anywhere, a cached trip is the fresh
  // join on the bound version exactly when it is not in that version or the
  // calendar last read gives its service that version's dates; and it is whenever
  // the last initialise that chose a version ran to its end.
  lemma LookupIsFreshExactlyWhen(database: map<int, Tables>, caches: seq<Cache>, calls: seq<Call>, tripId: string)
    requires IsTrace(database, caches, calls)
    requires var c := caches[|calls|]; c.bound.Some? && tripId in c.trips
    ensures var c := caches[|calls|];
            && c.bound.value in database && (c.calendarOf.Some? ==> c.calendarOf.value in database)
            && var t := database[c.bound.value];
               && (IsFreshJoin(t, c.bound.value, tripId, c.trips[tripId]) <==>
                     c.trips[tripId].None? || TripExpandsAlike(CalendarTables(database, c.calendarOf), t, tripId))
               && (LastLoadCompleted(caches, calls, |calls|) ==> IsFreshJoin(t, c.bound.value, tripId, c.trips[tripId]))
  {
    hide Expanded, KeysUnique, IsJoin, IsFreshJoin, TripExpandsAlike, LastLoadCompleted, IsCall;
    var n := |calls|;
    TraceKeepsInv(database, caches, calls, n);
    var c := caches[n];
    var t := database[c.bound.value];
    JoinIsFreshExactlyWhen(t, CalendarTables(database, c.calendarOf), c.dates, c.bound.value, tripId, c.trips[tripId]);
    if LastLoadCompleted(caches, calls, n) {
      CompletedLoadIsBound(database, caches, calls, n);
      AlikeItself(t, tripId);
    }
  }

  // -- A rollover that fails half way --------------------------------------------------------

  // Two versions: the first runs its service on Monday 5 January 1970, the second
  // never.
  const ONE_MONDAY: Tables := Tables(
    [CalendarRow("service", true, false, false, false, false, false, false, 4, 4)], [],
    [TripRow("trip", "service")], [StopTimeRow("trip", 1, 28800)])
  const NO_SERVICE: Tables := ONE_MONDAY.(calendar := [])
  const TWO_VERSIONS: map<int, Tables> := map[1 := ONE_MONDAY, 2 := NO_SERVICE]

  lemma OneDate(t: Tables, dates: DatesByService, service: string, date: int)
    requires Expanded(t, dates) && forall d :: Active(t, service, d) <==> d == date
    ensures DatesOf(dates, service) == {date}
  {
    hide Active, DatesOf;
    DatesAreActive(t, dates, service);
    assert Active(t, service, date);
    assert forall d :: d in DatesOf(dates, service) <==> d in {date};
  }

  lemma OnlyVersionIsBound(v: Version, onDate: int, bound: Option<int>)
    requires v.complete && v.startDate <= onDate <= v.endDate && IsBinding([v], onDate, bound)
    ensures bound == Some(v.id)
  {
    assert v in [v] && Eligible(v, None) && Eligible(v, Some(onDate));
  }

  lemma MondayIsActive()
    ensures forall date :: Active(ONE_MONDAY, "service", date) <==> date == 4
    ensures forall date :: !Active(NO_SERVICE, "service", date)
  {
    var row := ONE_MONDAY.calendar[0];
    assert row in ONE_MONDAY.calendar;
    assert DayName(4) == "Monday";
  }

  // The first is bound; the second is chosen, and its calendar query fails. The
  // trip then looked up runs on the first version's Monday under the second's
  // number.
  lemma FailedLoadServesOldDates(caches: seq<Cache>, calls: seq<Call>)
    requires |calls| == 3 && IsTrace(TWO_VERSIONS, caches, calls)
    requires calls[0] == Initialise([Version(1, 0, true, 0, 10)], 4, Completed)
    requires calls[1] == Initialise([Version(2, 1, true, 0, 10)], 5, CalendarQueryFailed)
    requires calls[2] == IndexFor({"trip"}, true)
    ensures var c := caches[3];
            && c.bound == Some(2) && "trip" in c.trips && c.trips["trip"].Some?
            && c.trips["trip"].value.activeDates == {4} && c.trips["trip"].value.feedVersionId == 2
            && !IsFreshJoin(NO_SERVICE, 2, "trip", c.trips["trip"])
  {
    hide IsFreshJoin, Active, KeysUnique, IsStops;
    assert IsCall(TWO_VERSIONS, caches[0], calls[0], caches[1]) && IsCall(TWO_VERSIONS, caches[1], calls[1], caches[2])
           && IsCall(TWO_VERSIONS, caches[2], calls[2], caches[3]);
    OnlyVersionIsBound(Version(1, 0, true, 0, 10), 4, caches[1].bound);
    OnlyVersionIsBound(Version(2, 1, true, 0, 10), 5, caches[2].bound);
    var c := caches[3];
    assert caches[1].calendarOf == Some(1) && caches[1].bound == Some(1);
    assert caches[2] == Cache(Some(2), Some(1), caches[1].dates, map[]);
    assert c.dates == caches[1].dates && c.calendarOf == Some(1) && c.bound == Some(2);
    MondayIsActive();
    assert StopTimeRow("trip", 1, 28800) in NO_SERVICE.stopTimes && TripRow("trip", "service") in NO_SERVICE.trips;
    OneDate(ONE_MONDAY, c.dates, "service", 4);
    LookupIsFreshExactlyWhen(TWO_VERSIONS, caches, calls, "trip");
    assert !ExpandAlike(ONE_MONDAY, NO_SERVICE, "service");
  }

  // An exception of type 3 on that Monday: the loader takes the service away, the
  // SQL leaves it running.
  lemma ForeignExceptionDisagrees()
    ensures var t := ONE_MONDAY.(exceptions := [ExceptionRow("service", 4, 3)]);
            KeysUnique(t) && ActiveInSql(t, "service", 4) && !Active(t, "service", 4)
  {
    var t := ONE_MONDAY.(exceptions := [ExceptionRow("service", 4, 3)]);
    var row := t.calendar[0];
    assert row in t.calendar && t.exceptions[0] in t.exceptions;
    assert DayName(4) == "Monday";
  }
}
