// The observation table and its batch upsert: src/db/upsert.ts over the table
// of sql/002_observations.sql.
module Upsert {
  import opened Wrappers
  import opened Transform

  datatype StoredRow = StoredRow(
    routeId: string, stopId: string,
    scheduledHourLocal: Option<int>, dayType: Option<int>, scheduledArrivalMs: Option<int>,
    scheduledSource: int, feedVersionId: Option<int>,
    observedArrivalMs: int, firstPredictedMs: int, minPredictedMs: int, maxPredictedMs: int,
    changeCount: nat, pollCount: nat, firstSeenMs: int, lastSeenMs: int,
    scheduleRelationship: int, vehicleId: Option<string>)
  {
    // The generated column delay_seconds: how many seconds after its schedule the
    // arrival is, to the nearest one, half a second counting away from zero.
    function DelaySeconds(): (delay: Option<int>)
      ensures delay.None? <==> scheduledArrivalMs.None?
      ensures delay.Some? ==>
                var (late, d) := (observedArrivalMs - scheduledArrivalMs.value, delay.value);
                && -500 <= late - 1000 * d <= 500
                && (late - 1000 * d == -500 ==> late > 0) && (late - 1000 * d == 500 ==> late < 0)
    {
      if scheduledArrivalMs.None? then None
      else
        var ms := observedArrivalMs - scheduledArrivalMs.value;
        Some(if ms >= 0 then (ms + 500) / 1000 else -((-ms + 500) / 1000))
    }
  }

  function Min(a: int, b: int): int { if a <= b then a else b }

  function Max(a: int, b: int): int { if a <= b then b else a }

  function Coalesce<T>(a: Option<T>, b: Option<T>): Option<T> {
    if a.Some? then a else b
  }

  // The select list of the insert.
  function Inserted(row: ObservationRow): StoredRow {
    StoredRow(
      row.routeId, row.stopId,
      row.scheduledHourLocal, row.dayType, row.scheduledArrivalMs, row.scheduledSource, row.feedVersionId,
      row.observedArrivalMs, row.observedArrivalMs, row.observedArrivalMs, row.observedArrivalMs,
      0, 1, row.observedAtMs, row.observedAtMs,
      row.scheduleRelationship, row.vehicleId)
  }

  // on conflict do update set ...
  function Updated(stored: StoredRow, excluded: ObservationRow): StoredRow {
    stored.(
      observedArrivalMs := excluded.observedArrivalMs,
      minPredictedMs := Min(stored.minPredictedMs, excluded.observedArrivalMs),
      maxPredictedMs := Max(stored.maxPredictedMs, excluded.observedArrivalMs),
      changeCount := stored.changeCount + if stored.observedArrivalMs != excluded.observedArrivalMs then 1 else 0,
      pollCount := stored.pollCount + 1,
      lastSeenMs := Max(stored.lastSeenMs, excluded.observedAtMs),
      scheduleRelationship := excluded.scheduleRelationship,
      vehicleId := Coalesce(excluded.vehicleId, stored.vehicleId),
      scheduledArrivalMs := Coalesce(excluded.scheduledArrivalMs, stored.scheduledArrivalMs),
      scheduledHourLocal := Coalesce(excluded.scheduledHourLocal, stored.scheduledHourLocal),
      dayType := Coalesce(excluded.dayType, stored.dayType),
      feedVersionId := Coalesce(excluded.feedVersionId, stored.feedVersionId),
      scheduledSource := if excluded.scheduledArrivalMs.Some? then excluded.scheduledSource else stored.scheduledSource)
  }

  type Rows = map<RowKey, StoredRow>

  function ApplyRow(rows: Rows, row: ObservationRow): Rows {
    var key := KeyOf(row);
    rows[key := if key in rows then Updated(rows[key], row) else Inserted(row)]
  }

  function ApplyRows(rows: Rows, batch: seq<ObservationRow>): Rows {
    if batch == [] then rows
    else ApplyRow(ApplyRows(rows, batch[..|batch| - 1]), batch[|batch| - 1])
  }

  // Postgres refuses a statement that would touch one row twice.
  datatype DbError = CannotAffectRowASecondTime

  datatype UpsertResult = UpsertResult(rowsWritten: nat, rowsChanged: nat)

  ghost predicate Counted(rows: Rows) {
    forall key | key in rows :: rows[key].pollCount >= 1
  }

  ghost function KeysOf(batch: seq<ObservationRow>): set<RowKey> {
    set row | row in batch :: KeyOf(row)
  }

  // Where the statement stands once it has applied some rows of the batch.
  ghost predicate AfterRows(rows: Rows, done: seq<ObservationRow>, next: Rows, touched: set<RowKey>, changed: int) {
    && touched == KeysOf(done) && KeysDistinct(done)
    && next == ApplyRows(rows, done) && Counted(next)
    && changed == |next| - |rows|
  }

  lemma OneMoreKey(done: seq<ObservationRow>, row: ObservationRow)
    requires KeysDistinct(done) && KeyOf(row) !in KeysOf(done)
    ensures KeysDistinct(done + [row])
    ensures KeysOf(done + [row]) == KeysOf(done) + {KeyOf(row)}
  {
    assert forall i | 0 <= i < |done| :: done[i] in done;
    assert forall r :: r in done + [row] <==> r in done || r == row;
  }

  lemma OneMoreRow(next: Rows, row: ObservationRow)
    requires Counted(next)
    ensures Counted(ApplyRow(next, row))
    ensures |ApplyRow(next, row)| == |next| + if ApplyRow(next, row)[KeyOf(row)].pollCount == 1 then 1 else 0
  {
    var next' := ApplyRow(next, row);
    assert next'.Keys == next.Keys + {KeyOf(row)};
  }

  lemma RowApplied(rows: Rows, done: seq<ObservationRow>, next: Rows, touched: set<RowKey>, changed: int,
                   row: ObservationRow)
    requires AfterRows(rows, done, next, touched, changed) && KeyOf(row) !in touched
    ensures AfterRows(rows, done + [row], ApplyRow(next, row), touched + {KeyOf(row)},
              if ApplyRow(next, row)[KeyOf(row)].pollCount == 1 then changed + 1 else changed)
  {
    hide Inserted, Updated, KeysDistinct, Counted, KeysOf;
    OneMoreKey(done, row);
    OneMoreRow(next, row);
    assert ApplyRows(rows, done + [row]) == ApplyRow(next, row) by {
      assert (done + [row])[..|done|] == done;
    }
  }

  lemma RepeatedKey(rows: Rows, done: seq<ObservationRow>, next: Rows, touched: set<RowKey>, changed: int,
                    batch: seq<ObservationRow>)
    requires AfterRows(rows, done, next, touched, changed)
    requires |done| < |batch| && done == batch[..|done|] && KeyOf(batch[|done|]) in touched
    ensures !KeysDistinct(batch)
  {
    var j :| 0 <= j < |done| && KeyOf(done[j]) == KeyOf(batch[|done|]);
    assert batch[j] == done[j];
  }

  class ObservationTable {
    var rows: Rows

    constructor ()
      ensures rows == map[]
    {
      rows := map[];
    }

    // A counter of 1 marks a row that has been inserted and never updated.
    ghost predicate Valid()
      reads this
    {
      Counted(rows)
    }

    method UpsertObservations(batch: seq<ObservationRow>) returns (result: Result<UpsertResult, DbError>)
      requires Valid()
      modifies this
      ensures Valid()
      ensures result.Success? <==> KeysDistinct(batch)
      ensures result.Failure? ==> rows == old(rows)
      ensures result.Success? ==>
                rows == ApplyRows(old(rows), batch)
                && result.value.rowsWritten == |batch|
                && result.value.rowsChanged == |rows| - |old(rows)|
    {
      var next := rows;
      var touched: set<RowKey> := {};
      var changed := 0;
      assert batch[..0] == [];
      for i := 0 to |batch|
        invariant rows == old(rows)
        invariant AfterRows(rows, batch[..i], next, touched, changed)
      {
        hide AfterRows, Updated, Inserted, KeysDistinct;
        var row := batch[i];
        var key := KeyOf(row);
        assert batch[..i + 1] == batch[..i] + [row];
        if key in touched {
          RepeatedKey(rows, batch[..i], next, touched, changed, batch);
          return Failure(CannotAffectRowASecondTime);
        }
        RowApplied(rows, batch[..i], next, touched, changed, row);
        next := next[key := if key in next then Updated(next[key], row) else Inserted(row)];
        touched := touched + {key};
        // returning (poll_count = 1) as inserted
        if next[key].pollCount == 1 {
          changed := changed + 1;
        }
      }
      assert batch[..|batch|] == batch;
      rows := next;
      return Success(UpsertResult(|batch|, changed));
    }
  }

  // -- The closed form of a row's history ---------------------------------------

  function Last(h: seq<ObservationRow>): ObservationRow
    requires h != []
  {
    h[|h| - 1]
  }

  function MinPrediction(h: seq<ObservationRow>): int
    requires h != []
  {
    if |h| == 1 then h[0].observedArrivalMs else Min(MinPrediction(h[..|h| - 1]), Last(h).observedArrivalMs)
  }

  function MaxPrediction(h: seq<ObservationRow>): int
    requires h != []
  {
    if |h| == 1 then h[0].observedArrivalMs else Max(MaxPrediction(h[..|h| - 1]), Last(h).observedArrivalMs)
  }

  function LastSeen(h: seq<ObservationRow>): int
    requires h != []
  {
    if |h| == 1 then h[0].observedAtMs else Max(LastSeen(h[..|h| - 1]), Last(h).observedAtMs)
  }

  // Adjacent polls whose predictions differ.
  function Changes(h: seq<ObservationRow>): nat {
    if |h| <= 1 then 0
    else Changes(h[..|h| - 1]) + if h[|h| - 2].observedArrivalMs != Last(h).observedArrivalMs then 1 else 0
  }

  // Index of the last poll that matched the schedule, or -1.
  function LastMatched(h: seq<ObservationRow>): (i: int)
    ensures -1 <= i < |h|
    ensures i >= 0 ==> h[i].scheduledArrivalMs.Some?
    ensures forall j | i < j < |h| :: h[j].scheduledArrivalMs.None?
  {
    if h == [] then -1
    else if Last(h).scheduledArrivalMs.Some? then |h| - 1 else LastMatched(h[..|h| - 1])
  }

  // Index of the last poll that named a vehicle, or -1.
  function LastVehicle(h: seq<ObservationRow>): (i: int)
    ensures -1 <= i < |h|
    ensures i >= 0 ==> h[i].vehicleId.Some?
    ensures forall j | i < j < |h| :: h[j].vehicleId.None?
  {
    if h == [] then -1
    else if Last(h).vehicleId.Some? then |h| - 1 else LastVehicle(h[..|h| - 1])
  }

  // What a row holds after its polls h. The five schedule columns are copied
  // from a single poll.
  function Closed(h: seq<ObservationRow>): StoredRow
    requires h != []
  {
    var m, v := LastMatched(h), LastVehicle(h);
    StoredRow(
      h[0].routeId, h[0].stopId,
      if m < 0 then None else h[m].scheduledHourLocal,
      if m < 0 then None else h[m].dayType,
      if m < 0 then None else h[m].scheduledArrivalMs,
      if m < 0 then UNMATCHED else h[m].scheduledSource,
      if m < 0 then None else h[m].feedVersionId,
      Last(h).observedArrivalMs, h[0].observedArrivalMs, MinPrediction(h), MaxPrediction(h),
      Changes(h), |h|, h[0].observedAtMs, LastSeen(h),
      Last(h).scheduleRelationship, if v < 0 then None else h[v].vehicleId)
  }

  ghost predicate AllOrNothing(h: seq<ObservationRow>) {
    forall row | row in h :: ScheduleAllOrNothing(row)
  }

  lemma ClosedStep(h: seq<ObservationRow>, row: ObservationRow)
    requires h != [] && AllOrNothing(h) && ScheduleAllOrNothing(row)
    ensures Updated(Closed(h), row) == Closed(h + [row])
  {
    var h' := h + [row];
    assert h'[..|h|] == h;
    var m := LastMatched(h);
    if m >= 0 {
      assert h[m] in h;
    }
  }

  // The polls of one key, in the order they were applied.
  function HistoryOf(rows: seq<ObservationRow>, key: RowKey): (h: seq<ObservationRow>)
    ensures forall row | row in h :: row in rows && KeyOf(row) == key
  {
    if rows == [] then []
    else
      var before := HistoryOf(rows[..|rows| - 1], key);
      if KeyOf(Last(rows)) == key then before + [Last(rows)] else before
  }

  lemma {:induction false} HistoryOfConcat(a: seq<ObservationRow>, b: seq<ObservationRow>, key: RowKey)
    ensures HistoryOf(a + b, key) == HistoryOf(a, key) + HistoryOf(b, key)
  {
    if b == [] {
      assert a + b == a;
    } else {
      assert (a + b)[..|a + b| - 1] == a + b[..|b| - 1];
      HistoryOfConcat(a, b[..|b| - 1], key);
    }
  }

  lemma {:induction false} ApplyRowsConcat(rows: Rows, a: seq<ObservationRow>, b: seq<ObservationRow>)
    ensures ApplyRows(rows, a + b) == ApplyRows(ApplyRows(rows, a), b)
  {
    if b == [] {
      assert a + b == a;
    } else {
      assert (a + b)[..|a + b| - 1] == a + b[..|b| - 1];
      ApplyRowsConcat(rows, a, b[..|b| - 1]);
    }
  }

  lemma InsertedIsClosed(row: ObservationRow)
    requires ScheduleAllOrNothing(row)
    ensures Inserted(row) == Closed([row])
  {
    assert [row][..0] == [];
  }

  // Folding rows into an empty table leaves, for each key seen, the closed form
  // of its history, and nothing else.
  lemma {:induction false} TableIsClosedForm(rows: seq<ObservationRow>, key: RowKey)
    requires AllOrNothing(rows)
    ensures key in ApplyRows(map[], rows) <==> HistoryOf(rows, key) != []
    ensures key in ApplyRows(map[], rows) ==> ApplyRows(map[], rows)[key] == Closed(HistoryOf(rows, key))
  {
    if rows != [] {
      hide Updated, Closed, Inserted;
      var before, row := rows[..|rows| - 1], Last(rows);
      TableIsClosedForm(before, key);
      if KeyOf(row) == key {
        assert ScheduleAllOrNothing(row) by { assert row in rows; }
        if HistoryOf(before, key) == [] {
          InsertedIsClosed(row);
        } else {
          ClosedStep(HistoryOf(before, key), row);
        }
      }
    }
  }

  // -- Sequences of batches -------------------------------------------------------

  // A batch with a repeated key is refused whole; the table keeps its rows.
  ghost function ApplyBatch(rows: Rows, batch: seq<ObservationRow>): Rows {
    if KeysDistinct(batch) then ApplyRows(rows, batch) else rows
  }

  ghost function ApplyBatches(rows: Rows, batches: seq<seq<ObservationRow>>): Rows {
    if batches == [] then rows
    else ApplyBatch(ApplyBatches(rows, batches[..|batches| - 1]), batches[|batches| - 1])
  }

  // The rows of the batches that were accepted, in order.
  ghost function Accepted(batches: seq<seq<ObservationRow>>): seq<ObservationRow> {
    if batches == [] then []
    else
      var batch := batches[|batches| - 1];
      Accepted(batches[..|batches| - 1]) + if KeysDistinct(batch) then batch else []
  }

  lemma {:induction false} BatchesAreRows(batches: seq<seq<ObservationRow>>)
    ensures ApplyBatches(map[], batches) == ApplyRows(map[], Accepted(batches))
  {
    if batches != [] {
      var before, batch := batches[..|batches| - 1], batches[|batches| - 1];
      BatchesAreRows(before);
      ApplyRowsConcat(map[], Accepted(before), if KeysDistinct(batch) then batch else []);
    }
  }

  lemma {:induction false} AcceptedConcat(a: seq<seq<ObservationRow>>, b: seq<seq<ObservationRow>>)
    ensures Accepted(a + b) == Accepted(a) + Accepted(b)
  {
    if b == [] {
      assert a + b == a;
    } else {
      assert (a + b)[..|a + b| - 1] == a + b[..|b| - 1];
      AcceptedConcat(a, b[..|b| - 1]);
    }
  }

  // After any sequence of batches on an empty table, every stored row is the
  // closed form of its key's accepted polls.
  lemma StoredRowIsClosedForm(batches: seq<seq<ObservationRow>>, key: RowKey)
    requires AllOrNothing(Accepted(batches))
    ensures var table := ApplyBatches(map[], batches);
            var h := HistoryOf(Accepted(batches), key);
            (key in table <==> h != []) && (key in table ==> table[key] == Closed(h))
  {
    BatchesAreRows(batches);
    TableIsClosedForm(Accepted(batches), key);
  }

  // The worker's running total: rowsChanged summed over its polls counts the
  // rows of the table.
  method IngestAll(batches: seq<seq<ObservationRow>>) returns (table: ObservationTable, total: nat)
    ensures fresh(table) && table.Valid()
    ensures table.rows == ApplyBatches(map[], batches)
    ensures total == |table.rows|
  {
    table := new ObservationTable();
    total := 0;
    for i := 0 to |batches|
      invariant fresh(table) && table.Valid()
      invariant table.rows == ApplyBatches(map[], batches[..i])
      invariant total == |table.rows|
    {
      assert batches[..i + 1][..i] == batches[..i];
      var result := table.UpsertObservations(batches[i]);
      if result.Success? {
        total := total + result.value.rowsChanged;
      }
    }
    assert batches[..|batches|] == batches;
  }

  // -- One poll behind the schedule columns ------------------------------------------

  // The five schedule columns of a stored row are those of one poll row, all set
  // together; or no poll has matched and they are all unset.
  lemma ScheduleColumnsShareOnePoll(h: seq<ObservationRow>)
    requires h != [] && AllOrNothing(h)
    ensures var r := Closed(h);
            if exists row | row in h :: row.scheduledArrivalMs.Some? then
              exists row | row in h ::
                r.scheduledArrivalMs == row.scheduledArrivalMs && r.scheduledArrivalMs.Some?
                && r.scheduledHourLocal == row.scheduledHourLocal && r.scheduledHourLocal.Some?
                && r.dayType == row.dayType && r.dayType.Some?
                && r.feedVersionId == row.feedVersionId && r.feedVersionId.Some?
                && r.scheduledSource == row.scheduledSource && r.scheduledSource != UNMATCHED
            else
              r.scheduledArrivalMs.None? && r.scheduledHourLocal.None? && r.dayType.None?
              && r.feedVersionId.None? && r.scheduledSource == UNMATCHED
  {
    var m := LastMatched(h);
    if m >= 0 {
      assert h[m] in h;
    }
  }

  // Once set, a match is never lost to later polls.
  lemma MatchIsKept(h: seq<ObservationRow>, later: seq<ObservationRow>)
    requires h != [] && Closed(h).scheduledArrivalMs.Some?
    ensures Closed(h + later).scheduledArrivalMs.Some?
  {
    assert (h + later)[LastMatched(h)] == h[LastMatched(h)];
  }

  // -- Replay ---------------------------------------------------------------------------

  // Equal but for the bookkeeping counters.
  predicate SameButCounters(a: StoredRow, b: StoredRow) {
    a.(pollCount := 0, changeCount := 0) == b.(pollCount := 0, changeCount := 0)
  }

  lemma {:induction false} ExtremesAre(h: seq<ObservationRow>)
    requires h != []
    ensures exists row | row in h :: row.observedArrivalMs == MinPrediction(h)
    ensures exists row | row in h :: row.observedArrivalMs == MaxPrediction(h)
    ensures exists row | row in h :: row.observedAtMs == LastSeen(h)
    ensures forall row | row in h :: MinPrediction(h) <= row.observedArrivalMs <= MaxPrediction(h)
    ensures forall row | row in h :: row.observedAtMs <= LastSeen(h)
  {
    assert Last(h) in h;
    if |h| > 1 {
      ExtremesAre(h[..|h| - 1]);
      assert h == h[..|h| - 1] + [Last(h)];
    }
  }

  ghost predicate ChangesAt(h: seq<ObservationRow>, i: int) {
    0 < i < |h| && h[i].observedArrivalMs != h[i - 1].observedArrivalMs
  }

  // The places where the prediction differs from the one before.
  ghost function ChangePlaces(h: seq<ObservationRow>): set<int> {
    set i | 0 < i < |h| && ChangesAt(h, i)
  }

  lemma LastChange(h: seq<ObservationRow>)
    requires |h| > 1
    ensures var n := |h| - 1;
            && n !in ChangePlaces(h[..n])
            && ChangePlaces(h) == ChangePlaces(h[..n]) + if ChangesAt(h, n) then {n} else {}
  {
    var n := |h| - 1;
    forall i
      ensures i in ChangePlaces(h) <==> i in ChangePlaces(h[..n]) || (i == n && ChangesAt(h, n))
    {
    }
  }

  lemma {:induction false} ChangesAreCounted(h: seq<ObservationRow>)
    ensures Changes(h) == |ChangePlaces(h)|
  {
    if |h| <= 1 {
      assert ChangePlaces(h) == {};
    } else {
      ChangesAreCounted(h[..|h| - 1]);
      LastChange(h);
    }
  }

  // Every column of a row's closed form, in terms of its polls.
  lemma ClosedColumns(h: seq<ObservationRow>)
    requires h != []
    ensures var (row, last) := (Closed(h), h[|h| - 1]);
            && row.routeId == h[0].routeId && row.stopId == h[0].stopId
            && row.observedArrivalMs == last.observedArrivalMs && row.scheduleRelationship == last.scheduleRelationship
            && row.firstPredictedMs == h[0].observedArrivalMs && row.firstSeenMs == h[0].observedAtMs
            && row.pollCount == |h| && row.changeCount == |ChangePlaces(h)|
            && (exists poll | poll in h :: poll.observedArrivalMs == row.minPredictedMs)
            && (exists poll | poll in h :: poll.observedArrivalMs == row.maxPredictedMs)
            && (exists poll | poll in h :: poll.observedAtMs == row.lastSeenMs)
            && (forall poll | poll in h ::
                  row.minPredictedMs <= poll.observedArrivalMs <= row.maxPredictedMs
                  && poll.observedAtMs <= row.lastSeenMs)
            && (row.vehicleId.None? <==> forall poll | poll in h :: poll.vehicleId.None?)
            && (row.vehicleId.Some? ==>
                  exists i | 0 <= i < |h| :: h[i].vehicleId == row.vehicleId
                                             && forall j | i < j < |h| :: h[j].vehicleId.None?)
            && (row.scheduledArrivalMs.None? <==> forall poll | poll in h :: poll.scheduledArrivalMs.None?)
            && (row.scheduledArrivalMs.Some? ==>
                  exists i | 0 <= i < |h| :: h[i].scheduledArrivalMs == row.scheduledArrivalMs
                                             && forall j | i < j < |h| :: h[j].scheduledArrivalMs.None?)
  {
    ExtremesAre(h);
    ChangesAreCounted(h);
    hide MinPrediction, MaxPrediction, LastSeen, Changes, LastMatched, LastVehicle;
  }

  // Polls already applied cannot move the extremes.
  lemma ReplayKeepsExtremes(h: seq<ObservationRow>, u: seq<ObservationRow>)
    requires h != [] && forall row | row in u :: row in h
    ensures MinPrediction(h + u) == MinPrediction(h)
    ensures MaxPrediction(h + u) == MaxPrediction(h)
    ensures LastSeen(h + u) == LastSeen(h)
  {
    ExtremesAre(h);
    ExtremesAre(h + u);
    assert forall row :: row in h + u <==> row in h;
  }

  lemma LastOfConcat(h: seq<ObservationRow>, u: seq<ObservationRow>)
    ensures LastMatched(h + u) == if LastMatched(u) >= 0 then |h| + LastMatched(u) else LastMatched(h)
    ensures LastVehicle(h + u) == if LastVehicle(u) >= 0 then |h| + LastVehicle(u) else LastVehicle(h)
  {
    var w, m, v := h + u, LastMatched(h + u), LastVehicle(h + u);
    assert LastMatched(u) >= 0 ==> w[|h| + LastMatched(u)] == u[LastMatched(u)];
    assert LastMatched(h) >= 0 ==> w[LastMatched(h)] == h[LastMatched(h)];
    assert LastVehicle(u) >= 0 ==> w[|h| + LastVehicle(u)] == u[LastVehicle(u)];
    assert LastVehicle(h) >= 0 ==> w[LastVehicle(h)] == h[LastVehicle(h)];
    assert forall j | 0 <= j < |w| :: w[j] == if j < |h| then h[j] else u[j - |h|];
  }

  predicate SameMatch(a: ObservationRow, b: ObservationRow) {
    && a.scheduledArrivalMs == b.scheduledArrivalMs && a.scheduledHourLocal == b.scheduledHourLocal
    && a.dayType == b.dayType && a.feedVersionId == b.feedVersionId && a.scheduledSource == b.scheduledSource
  }

  // The replayed polls end on the prediction the row already holds, and the last
  // vehicle and the last match among them are the ones it already holds.
  predicate EndsAsRecorded(h: seq<ObservationRow>, u: seq<ObservationRow>)
    requires h != [] && u != [] && forall row | row in u :: row in h
  {
    && Last(u).observedArrivalMs == Last(h).observedArrivalMs
    && Last(u).scheduleRelationship == Last(h).scheduleRelationship
    && (LastVehicle(u) >= 0 ==> LastVehicle(h) >= 0 && u[LastVehicle(u)].vehicleId == h[LastVehicle(h)].vehicleId)
    && (LastMatched(u) >= 0 ==> LastMatched(h) >= 0 && SameMatch(u[LastMatched(u)], h[LastMatched(h)]))
  }

  // Replaying polls a row has already absorbed leaves it as it was exactly when
  // they end as it did.
  lemma ReplayConvergesExactlyWhen(h: seq<ObservationRow>, u: seq<ObservationRow>)
    requires h != [] && u != [] && forall row | row in u :: row in h
    ensures SameButCounters(Closed(h + u), Closed(h)) <==> EndsAsRecorded(h, u)
  {
    hide MinPrediction, MaxPrediction, LastSeen, Changes;
    ReplayKeepsExtremes(h, u);
    LastOfConcat(h, u);
    assert Last(h + u) == Last(u) && (h + u)[0] == h[0];
    var m, v := LastMatched(u), LastVehicle(u);
    if m >= 0 {
      assert (h + u)[|h| + m] == u[m] && u[m] in u && u[m] in h;
      assert LastMatched(h) >= 0;
    } else if LastMatched(h) >= 0 {
      assert (h + u)[LastMatched(h)] == h[LastMatched(h)];
    }
    if v >= 0 {
      assert (h + u)[|h| + v] == u[v] && u[v] in u && u[v] in h;
      assert LastVehicle(h) >= 0;
    } else if LastVehicle(h) >= 0 {
      assert (h + u)[LastVehicle(h)] == h[LastVehicle(h)];
    }
  }

  // Any suffix of the history ends as the history does.
  lemma SuffixEndsAsRecorded(h: seq<ObservationRow>, k: nat)
    requires k < |h|
    ensures EndsAsRecorded(h, h[k..])
  {
    hide LastMatched, LastVehicle;
    assert h == h[..k] + h[k..];
    LastOfConcat(h[..k], h[k..]);
  }

  lemma SameAsItself(row: StoredRow)
    ensures SameButCounters(row, row)
  {
  }

  // Replaying any suffix of the batches already applied (a retried poll, a
  // restart, the whole archive) changes no stored row but for its counters.
  lemma ReplayingASuffixConverges(batches: seq<seq<ObservationRow>>, k: nat, key: RowKey)
    requires k <= |batches| && AllOrNothing(Accepted(batches))
    ensures var once := ApplyBatches(map[], batches);
            var twice := ApplyBatches(map[], batches + batches[k..]);
            (key in twice <==> key in once) && (key in once ==> SameButCounters(twice[key], once[key]))
  {
    hide ApplyBatches, Accepted, HistoryOf, Closed, EndsAsRecorded, SameButCounters, ScheduleAllOrNothing;
    var a, b := Accepted(batches[..k]), Accepted(batches[k..]);
    assert batches == batches[..k] + batches[k..];
    AcceptedConcat(batches[..k], batches[k..]);
    AcceptedConcat(batches, batches[k..]);
    HistoryOfConcat(a, b, key);
    HistoryOfConcat(a + b, b, key);
    StoredRowIsClosedForm(batches, key);
    assert forall row | row in a + b + b :: row in a + b;
    StoredRowIsClosedForm(batches + batches[k..], key);
    var h, u := HistoryOf(a + b, key), HistoryOf(b, key);
    if u == [] {
      assert h + u == h;
      if h != [] {
        SameAsItself(Closed(h));
      }
    } else {
      assert u == h[|h| - |u|..];
      SuffixEndsAsRecorded(h, |h| - |u|);
      ReplayConvergesExactlyWhen(h, u);
    }
  }

  // Replaying an earlier shard on its own does not converge: the row goes back
  // to that shard's last prediction.
  lemma ReplayingAnEarlyShardDiverges(row: ObservationRow)
    ensures var early, late := row.(observedArrivalMs := 60_000), row.(observedArrivalMs := 90_000);
            var once := ApplyBatches(map[], [[early], [late]]);
            var twice := ApplyBatches(map[], [[early], [late], [early]]);
            KeyOf(row) in once && KeyOf(row) in twice
            && once[KeyOf(row)].observedArrivalMs == 90_000 && twice[KeyOf(row)].observedArrivalMs == 60_000
  {
    var early, late := row.(observedArrivalMs := 60_000), row.(observedArrivalMs := 90_000);
    assert [[early], [late], [early]][..2] == [[early], [late]];
    assert [[early], [late]][..1] == [[early]];
    assert [[early]][..0] == [];
    assert [early][..0] == [] && [late][..0] == [];
    assert KeysDistinct([early]) && KeysDistinct([late]);
    assert ApplyBatches(map[], [[early]]) == ApplyRows(map[], [early]);
    assert ApplyBatches(map[], [[early], [late]]) == ApplyRows(ApplyBatches(map[], [[early]]), [late]);
  }
}
