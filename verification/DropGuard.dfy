// When dropping a partition leaves the serving figures right: the guard of
// src/db/partitions.ts against the rollups of sql/003_rollups.sql.
module DropGuard {
  import opened Wrappers
  import opened Upsert
  import opened Rollups
  import Partitions

  // -- One day of a history ---------------------------------------------------------------

  // The rows the day was last written with, and those it was last rolled up from.
  function LastRows(events: seq<Event>, date: int): seq<StoredRow>
    decreases |events|
  {
    if events == [] then []
    else
      var before := events[..|events| - 1];
      match events[|events| - 1]
      case Write(d, rows) => if d == date then rows else LastRows(before, date)
      case _ => LastRows(before, date)
  }

  function RolledRows(events: seq<Event>, date: int): seq<StoredRow>
    decreases |events|
  {
    if events == [] then []
    else
      var before := events[..|events| - 1];
      if events[|events| - 1] == RollUp(date) then LastRows(before, date) else RolledRows(before, date)
  }

  ghost predicate NeverEvicted(events: seq<Event>, date: int) {
    forall e | e in events && e.Evict? :: date !in e.days
  }

  ghost predicate HasDay(table: seq<Observation>, date: int) {
    exists o | o in table :: o.serviceDate == date
  }

  function OnDay(date: int, rows: seq<StoredRow>, cell: Cell): Option<Aggregate> {
    Direct(Dated(date, rows), Only(date), cell)
  }

  // The state of a day, cell by cell.
  ghost predicate DayIs(h: History, date: int, raw: seq<StoredRow>, rolled: seq<StoredRow>) {
    && DayKeysDistinct(h.rollup)
    && !HasDay(h.gone, date)
    && (HasDay(h.raw, date) <==> raw != [])
    && (forall cell :: Direct(h.raw, Only(date), cell) == OnDay(date, raw, cell))
    && (forall cell :: FindDay(h.rollup, date, cell) == OnDay(date, rolled, cell))
  }

  lemma {:induction false} WhereMembers(table: seq<Observation>, days: int -> bool)
    ensures forall o :: o in Where(table, days) <==> o in table && days(o.serviceDate)
  {
    if table != [] {
      var n := |table| - 1;
      WhereMembers(table[..n], days);
      assert table == table[..n] + [table[n]];
    }
  }

  lemma NothingDirect(date: int, cell: Cell)
    ensures Direct([], Only(date), cell) == None
  {
  }

  lemma NoDayNoDirect(table: seq<Observation>, date: int, cell: Cell)
    requires !HasDay(table, date)
    ensures Direct(table, Only(date), cell) == None
  {
    hide IsSelected;
    NoDays(table, Only(date), cell);
    NoSummary();
  }

  lemma DatedMembers(date: int, rows: seq<StoredRow>)
    ensures forall o | o in Dated(date, rows) :: o.serviceDate == date
    ensures |Dated(date, rows)| == |rows|
  {
  }

  lemma OtherDaysKept(table: seq<Observation>, keep: int -> bool, date: int, cell: Cell)
    requires keep(date)
    ensures Direct(Where(table, keep), Only(date), cell) == Direct(table, Only(date), cell)
  {
    hide IsSelected;
    WhereDirect(table, keep, Only(date), cell);
    DirectSameDays(table, Both(keep, Only(date)), Only(date), cell);
  }

  lemma WriteDay(h: History, date: int, raw: seq<StoredRow>, rolled: seq<StoredRow>, d: int, rows: seq<StoredRow>)
    requires DayIs(h, date, raw, rolled)
    ensures DayIs(Step(h, Write(d, rows)), date, if d == date then rows else raw, rolled)
  {
    hide DayKeysDistinct, FindDay, Direct, Where, Dated;
    var next := Step(h, Write(d, rows));
    var rest, added := Where(h.raw, Except(d)), Dated(d, rows);
    WhereMembers(h.raw, Except(d));
    DatedMembers(d, rows);
    forall cell
      ensures Direct(next.raw, Only(date), cell) == OnDay(date, if d == date then rows else raw, cell)
    {
      DirectOfConcat(rest, added, Only(date), cell);
      if d == date {
        NoDayNoDirect(rest, date, cell);
        MergeIsCommutativeMonoid(Direct(added, Only(date), cell), None, None);
      } else {
        NoDayNoDirect(added, date, cell);
        OtherDaysKept(h.raw, Except(d), date, cell);
        MergeIsCommutativeMonoid(Direct(rest, Only(date), cell), None, None);
      }
    }
    assert HasDay(next.raw, date) <==> (if d == date then rows else raw) != [] by {
      if d == date && rows != [] {
        assert added[0] in next.raw;
      }
      if d != date && HasDay(h.raw, date) {
        var o :| o in h.raw && o.serviceDate == date;
        assert o in rest && o in next.raw;
      }
    }
  }

  lemma RollUpDay(h: History, date: int, raw: seq<StoredRow>, rolled: seq<StoredRow>, d: int)
    requires DayIs(h, date, raw, rolled)
    ensures DayIs(Step(h, RollUp(d)), date, raw, if d == date then raw else rolled)
  {
    hide DayKeysDistinct, FindDay, Direct, RolledUp, OnDay;
    RolledUpIsFresh(h.raw, h.rollup, d);
  }

  lemma EvictDay(h: History, date: int, raw: seq<StoredRow>, rolled: seq<StoredRow>, days: set<int>)
    requires DayIs(h, date, raw, rolled) && date !in days
    ensures DayIs(Step(h, Evict(days)), date, raw, rolled)
  {
    hide DayKeysDistinct, FindDay, Direct, Where, OnDay;
    WhereMembers(h.raw, NotAmong(days));
    WhereMembers(h.raw, AmongDays(days));
    forall cell
      ensures Direct(Where(h.raw, NotAmong(days)), Only(date), cell) == Direct(h.raw, Only(date), cell)
    {
      OtherDaysKept(h.raw, NotAmong(days), date, cell);
    }
    if HasDay(h.raw, date) {
      var o :| o in h.raw && o.serviceDate == date;
      assert o in Where(h.raw, NotAmong(days));
    }
  }

  lemma StartDay(date: int)
    ensures DayIs(NO_HISTORY, date, [], [])
  {
    EmptyKeys();
    hide DayKeysDistinct;
    assert Dated(date, []) == [];
    forall cell
      ensures Direct([], Only(date), cell) == None == FindDay([], date, cell)
    {
      NothingDirect(date, cell);
    }
  }

  lemma NeverEvictedParts(events: seq<Event>, date: int)
    requires events != [] && NeverEvicted(events, date)
    ensures NeverEvicted(events[..|events| - 1], date)
    ensures events[|events| - 1].Evict? ==> date !in events[|events| - 1].days
  {
    assert events[|events| - 1] in events && forall e | e in events[..|events| - 1] :: e in events;
  }

  // A day that has not been dropped holds what it was last written with, and its
  // rollup is that of what it held when last rolled up.
  lemma {:induction false} DayAfterRun(events: seq<Event>, date: int)
    requires NeverEvicted(events, date)
    ensures DayIs(Run(NO_HISTORY, events), date, LastRows(events, date), RolledRows(events, date))
    decreases |events|
  {
    hide DayIs, Step, NeverEvicted;
    if events == [] {
      StartDay(date);
    } else {
      var n := |events| - 1;
      var h := Run(NO_HISTORY, events[..n]);
      var raw, rolled := LastRows(events[..n], date), RolledRows(events[..n], date);
      NeverEvictedParts(events, date);
      DayAfterRun(events[..n], date);
      match events[n]
      case Write(d, rows) => WriteDay(h, date, raw, rolled, d, rows);
      case RollUp(d) => RollUpDay(h, date, raw, rolled, d);
      case Evict(days) => EvictDay(h, date, raw, rolled, days);
    }
  }

  // -- One drop ---------------------------------------------------------------------------

  // What the guard asks of each day it is about to drop.
  ghost predicate Guarded(h: History, days: set<int>) {
    forall date | date in days && HasDay(h.raw, date) :: InRollup(h.rollup, date)
  }

  // It is the guard of dropExpiredPartitions on the partition of those days.
  lemma GuardIsMayDrop(h: History, rows: Upsert.Rows, rolledUp: set<int>, r: Partitions.Range, cutoff: int,
                       days: set<int>)
    requires forall date :: date in days <==> Partitions.Holds(r, date)
    requires forall date :: HasDay(h.raw, date) <==> exists key | key in rows :: key.serviceDate == date
    requires forall date :: date in rolledUp <==> InRollup(h.rollup, date)
    ensures Partitions.MayDrop(r, rows, rolledUp, cutoff) <==> r.to - 1 < cutoff && Guarded(h, days)
  {
    hide HasDay, InRollup;
  }

  // A day keeps right figures through its drop.
  ghost predicate RightAfterDrop(h: History, days: set<int>, date: int) {
    var dropped := Step(h, Evict(days));
    Fresh(dropped.gone + dropped.raw, dropped.rollup, date)
  }

  ghost predicate SameFigures(date: int, a: seq<StoredRow>, b: seq<StoredRow>) {
    forall cell :: OnDay(date, a, cell) == OnDay(date, b, cell)
  }

  // The figures of a dropped day are right exactly when the rows it was last
  // written with aggregate as those it was last rolled up from.
  lemma DropIsRightExactlyWhen(events: seq<Event>, days: set<int>, date: int)
    requires NeverEvicted(events, date)
    ensures RightAfterDrop(Run(NO_HISTORY, events), days, date) <==>
            SameFigures(date, LastRows(events, date), RolledRows(events, date))
  {
    hide FindDay, Direct, OnDay, LastRows, RolledRows, Run, DayKeysDistinct, Where, HasDay;
    var h := Run(NO_HISTORY, events);
    DayAfterRun(events, date);
    var raw, rolled := LastRows(events, date), RolledRows(events, date);
    forall cell
      ensures var dropped := Step(h, Evict(days));
              Direct(dropped.gone + dropped.raw, Only(date), cell) == OnDay(date, raw, cell)
    {
      EvictionKeepsHistory(h, days, date, cell);
      DirectOfConcat(h.gone, h.raw, Only(date), cell);
      NoDayNoDirect(h.gone, date, cell);
      MergeIsCommutativeMonoid(Direct(h.raw, Only(date), cell), None, None);
    }
  }

  // After a settled day is written again, it is still fresh exactly when the new
  // rows aggregate as the old ones did.
  lemma RewriteIsFreshExactlyWhen(h: History, date: int, rows: seq<StoredRow>)
    requires SettledAreFresh(h) && date in h.settled && NothingGone(h.gone, date)
    ensures var next := Step(h, Write(date, rows));
            Fresh(next.gone + next.raw, next.rollup, date) <==>
            forall cell :: OnDay(date, rows, cell) == Direct(h.raw, Only(date), cell)
  {
    hide FindDay, Direct, Where, Dated, DayKeysDistinct, NothingGone;
    var rest, added := Where(h.raw, Except(date)), Dated(date, rows);
    WhereMembers(h.raw, Except(date));
    assert Fresh(h.gone + h.raw, h.rollup, date);
    forall cell
      ensures Direct(h.gone + h.raw, Only(date), cell) == Direct(h.raw, Only(date), cell)
      ensures Direct(h.gone + (rest + added), Only(date), cell) == OnDay(date, rows, cell)
    {
      DirectOfConcat(h.gone, h.raw, Only(date), cell);
      DirectOfConcat(h.gone, rest + added, Only(date), cell);
      DirectOfConcat(rest, added, Only(date), cell);
      DirectOfNone(h.gone, date, cell);
      NoDayNoDirect(rest, date, cell);
      MergeIsCommutativeMonoid(Direct(h.raw, Only(date), cell), None, None);
      MergeIsCommutativeMonoid(Direct(added, Only(date), cell), None, None);
    }
  }

  // -- Every content ------------------------------------------------------------------------

  // The day was written and not rolled up since.
  predicate Pending(events: seq<Event>, date: int)
    decreases |events|
  {
    events != [] &&
    var before := events[..|events| - 1];
    match events[|events| - 1]
    case Write(d, _) => d == date || Pending(before, date)
    case RollUp(d) => d != date && Pending(before, date)
    case Evict(_) => Pending(before, date)
  }

  predicate Written(events: seq<Event>, date: int)
    decreases |events|
  {
    events != [] &&
    ((events[|events| - 1].Write? && events[|events| - 1].date == date) || Written(events[..|events| - 1], date))
  }

  // The day was rolled up after some write.
  predicate Rolled(events: seq<Event>, date: int)
    decreases |events|
  {
    events != [] &&
    var before := events[..|events| - 1];
    (events[|events| - 1] == RollUp(date) && Written(before, date)) || Rolled(before, date)
  }

  // The same jobs in the same order, with writes of those days writing other rows.
  ghost predicate SameShape(events: seq<Event>, other: seq<Event>, days: set<int>) {
    && |events| == |other|
    && forall i | 0 <= i < |events| ::
         other[i] == events[i]
         || (events[i].Write? && other[i].Write? && other[i].date == events[i].date && events[i].date in days)
  }

  lemma {:induction false} ShapeDecides(events: seq<Event>, other: seq<Event>, days: set<int>, date: int)
    requires SameShape(events, other, days)
    ensures Pending(other, date) == Pending(events, date) && Written(other, date) == Written(events, date)
    ensures Rolled(other, date) == Rolled(events, date)
    decreases |events|
  {
    if events != [] {
      ShapeDecides(events[..|events| - 1], other[..|events| - 1], days, date);
    }
  }

  lemma ShapeKeepsDrops(events: seq<Event>, other: seq<Event>, days: set<int>, date: int)
    requires SameShape(events, other, days) && NeverEvicted(events, date)
    ensures NeverEvicted(other, date)
  {
    forall e | e in other && e.Evict?
      ensures date !in e.days
    {
      var i :| 0 <= i < |other| && other[i] == e;
      assert events[i] == e && events[i] in events;
    }
  }

  lemma {:induction false} RowsByShape(events: seq<Event>, date: int)
    ensures !Pending(events, date) ==> RolledRows(events, date) == LastRows(events, date)
    ensures !Rolled(events, date) ==> RolledRows(events, date) == []
    ensures !Written(events, date) ==> LastRows(events, date) == []
    decreases |events|
  {
    if events != [] {
      RowsByShape(events[..|events| - 1], date);
    }
  }

  lemma FoundInRollup(h: History, date: int, raw: seq<StoredRow>, rolled: seq<StoredRow>)
    requires DayIs(h, date, raw, rolled)
    ensures InRollup(h.rollup, date) <==> exists cell :: OnDay(date, rolled, cell).Some?
  {
    hide Direct, OnDay, FindDay, HasDay;
    if r :| r in h.rollup && r.serviceDate == date {
      FindDayIsRow(h.rollup, r);
      assert OnDay(date, rolled, r.cell).Some?;
    }
    if cell :| OnDay(date, rolled, cell).Some? {
      assert FindDay(h.rollup, date, cell).Some?;
      FoundDayIsRow(h.rollup, date, cell);
    }
  }

  lemma EmptyOnDay(date: int)
    ensures forall cell :: OnDay(date, [], cell) == None
  {
    assert Dated(date, []) == [];
    forall cell
      ensures OnDay(date, [], cell) == None
    {
      NothingDirect(date, cell);
    }
  }

  // A guarded drop is right for these rows if no write is pending, or if no
  // rollup ever followed one, in which case the guard lets only an empty day go.
  lemma GuardedDropIsRight(events: seq<Event>, days: set<int>, date: int)
    requires NeverEvicted(events, date) && date in days && Guarded(Run(NO_HISTORY, events), days)
    requires !(Pending(events, date) && Rolled(events, date))
    ensures RightAfterDrop(Run(NO_HISTORY, events), days, date)
  {
    hide Run, OnDay, FindDay, Direct, LastRows, RolledRows, Pending, Rolled, Written, RightAfterDrop;
    var h := Run(NO_HISTORY, events);
    RowsByShape(events, date);
    DropIsRightExactlyWhen(events, days, date);
    if Pending(events, date) {
      DayAfterRun(events, date);
      FoundInRollup(h, date, LastRows(events, date), RolledRows(events, date));
      assert forall cell :: OnDay(date, [], cell).None? by { EmptyOnDay(date); }
    }
  }

  // Two countable rows of one cell with different delays.
  const EARLY: StoredRow :=
    StoredRow("route", "stop", Some(8), Some(0), Some(0), 1, Some(1), 0, 0, 0, 0, 0, 1, 0, 0, 0, None)
  const LATE: StoredRow := EARLY.(observedArrivalMs := 60_000)

  lemma DirectOfOne(o: Observation, date: int, cell: Cell)
    requires IsSelected(o.row) && CellOf(o.row) == cell && o.serviceDate == date
    ensures Direct([o], Only(date), cell) == Summary([o.row.DelaySeconds().value])
  {
    hide Summary;
    assert [o][..0] == [];
    var x := o.row.DelaySeconds().value;
    assert Delays([], Only(date), cell) == [];
    assert Delays([o], Only(date), cell) == [] + [x] == [x];
  }

  lemma OneRowDay(date: int, row: StoredRow, delay: int)
    requires IsSelected(row) && row.DelaySeconds() == Some(delay)
    ensures OnDay(date, [row], CellOf(row)) == Summary([delay])
  {
    hide Summary;
    var o := Observation(date, row);
    assert Dated(date, [row]) == [o];
    DirectOfOne(o, date, CellOf(row));
  }

  lemma DelaysTell(date: int, a: StoredRow, b: StoredRow)
    requires IsSelected(a) && IsSelected(b) && CellOf(a) == CellOf(b) && a.DelaySeconds() != b.DelaySeconds()
    ensures OnDay(date, [a], CellOf(a)).Some?
    ensures OnDay(date, [a], CellOf(a)) != OnDay(date, [b], CellOf(a))
  {
    var x, y := a.DelaySeconds().value, b.DelaySeconds().value;
    assert a.DelaySeconds() == Some(x) && b.DelaySeconds() == Some(y) && x != y;
    OneRowDay(date, a, x);
    OneRowDay(date, b, y);
    SummaryOfOne(x);
    SummaryOfOne(y);
  }

  lemma EarlyAndLateDiffer(date: int)
    ensures OnDay(date, [EARLY], CellOf(EARLY)).Some?
    ensures OnDay(date, [EARLY], CellOf(EARLY)) != OnDay(date, [LATE], CellOf(EARLY))
  {
    assert CellOf(LATE) == CellOf(EARLY);
    DelaysTell(date, EARLY, LATE);
  }

  // The same jobs with EARLY written before the day's last rollup, LATE after it,
  // and nothing on the other days.
  function Refilled(events: seq<Event>, days: set<int>, date: int, rolledLater: bool): (other: seq<Event>)
    ensures |other| == |events|
    decreases |events|
  {
    if events == [] then []
    else
      var before, e := events[..|events| - 1], events[|events| - 1];
      if e.Write? && e.date == date then
        Refilled(before, days, date, rolledLater) + [Write(date, [if rolledLater then EARLY else LATE])]
      else if e.Write? && e.date in days then Refilled(before, days, date, rolledLater) + [Write(e.date, [])]
      else Refilled(before, days, date, rolledLater || e == RollUp(date)) + [e]
  }

  lemma {:induction false} RefilledShape(events: seq<Event>, days: set<int>, date: int, rolledLater: bool)
    requires date in days
    ensures SameShape(events, Refilled(events, days, date, rolledLater), days)
    decreases |events|
  {
    if events != [] {
      var n := |events| - 1;
      RefilledShape(events[..n], days, date, rolledLater);
      RefilledShape(events[..n], days, date, rolledLater || events[n] == RollUp(date));
    }
  }

  lemma {:induction false} RolledWasWritten(events: seq<Event>, date: int)
    ensures Rolled(events, date) ==> Written(events, date)
    decreases |events|
  {
    if events != [] {
      RolledWasWritten(events[..|events| - 1], date);
    }
  }

  lemma RefilledSnoc(events: seq<Event>, days: set<int>, date: int, rolledLater: bool)
    requires date in days && events != []
    ensures var (n, other) := (|events| - 1, Refilled(events, days, date, rolledLater));
            var e := events[n];
            if e.Write? && e.date in days then
              other[..n] == Refilled(events[..n], days, date, rolledLater)
              && other[n] == Write(e.date, if e.date != date then [] else if rolledLater then [EARLY] else [LATE])
            else
              other[..n] == Refilled(events[..n], days, date, rolledLater || e == RollUp(date)) && other[n] == e
  {
  }

  lemma {:induction false} RefilledRows(events: seq<Event>, days: set<int>, date: int, rolledLater: bool)
    requires date in days
    ensures var other := Refilled(events, days, date, rolledLater);
            && (Pending(events, date) ==> LastRows(other, date) == [if rolledLater then EARLY else LATE])
            && (rolledLater && Written(events, date) ==> LastRows(other, date) == [EARLY])
            && (Rolled(events, date) ==> RolledRows(other, date) == [EARLY])
            && forall d | d in days && d != date :: LastRows(other, d) == []
    decreases |events|
  {
    if events != [] {
      var n := |events| - 1;
      var e := events[n];
      var later := rolledLater || e == RollUp(date);
      RolledWasWritten(events[..n], date);
      RefilledRows(events[..n], days, date, later);
      if e.Write? {
        RefilledRows(events[..n], days, date, rolledLater);
      }
      RefilledSnoc(events, days, date, rolledLater);
      hide Refilled;
    }
  }

  lemma RefilledIsWrong(events: seq<Event>, days: set<int>, date: int)
    requires date in days && (forall d | d in days :: NeverEvicted(events, d))
    requires Pending(events, date) && Rolled(events, date)
    ensures var other := Refilled(events, days, date, false);
            SameShape(events, other, days) && Guarded(Run(NO_HISTORY, other), days)
            && !RightAfterDrop(Run(NO_HISTORY, other), days, date)
  {
    hide Run, OnDay, FindDay, Direct, LastRows, RolledRows, Pending, Rolled, Written, RightAfterDrop, Refilled,
      NeverEvicted, SameShape;
    var other := Refilled(events, days, date, false);
    var h := Run(NO_HISTORY, other);
    RefilledShape(events, days, date, false);
    RefilledRows(events, days, date, false);
    ShapeKeepsDrops(events, other, days, date);
    EarlyAndLateDiffer(date);
    DropIsRightExactlyWhen(other, days, date);
    forall d | d in days && HasDay(h.raw, d)
      ensures InRollup(h.rollup, d)
    {
      ShapeKeepsDrops(events, other, days, d);
      DayAfterRun(other, d);
      assert d == date;
      FoundInRollup(h, d, LastRows(other, d), RolledRows(other, d));
    }
  }

  // Whatever rows its days are written with, a guarded drop leaves right figures
  // for all of them exactly when, for each, every write is followed by a rollup
  // or no rollup ever followed a write.
  lemma GuardedDropIsRightExactlyWhen(events: seq<Event>, days: set<int>)
    requires forall date | date in days :: NeverEvicted(events, date)
    ensures (forall other | SameShape(events, other, days) && Guarded(Run(NO_HISTORY, other), days) ::
               forall date | date in days :: RightAfterDrop(Run(NO_HISTORY, other), days, date))
            <==> forall date | date in days :: !(Pending(events, date) && Rolled(events, date))
  {
    hide Run, Guarded, RightAfterDrop, SameShape, NeverEvicted, Pending, Rolled;
    if forall date | date in days :: !(Pending(events, date) && Rolled(events, date)) {
      forall other, date | SameShape(events, other, days) && Guarded(Run(NO_HISTORY, other), days) && date in days
        ensures RightAfterDrop(Run(NO_HISTORY, other), days, date)
      {
        ShapeDecides(events, other, days, date);
        ShapeKeepsDrops(events, other, days, date);
        GuardedDropIsRight(other, days, date);
      }
    } else {
      var date :| date in days && Pending(events, date) && Rolled(events, date);
      RefilledIsWrong(events, days, date);
    }
  }

  // So the guard admits stale days: one written again after its rollup passes
  // it, and once dropped its figures stay those of the earlier rows.
  lemma GuardAdmitsStaleDays(date: int, early: StoredRow, late: StoredRow)
    requires IsSelected(early) && IsSelected(late) && CellOf(early) == CellOf(late)
    requires early.DelaySeconds() != late.DelaySeconds()
    ensures var h := Run(NO_HISTORY, [Write(date, [early]), RollUp(date), Write(date, [late])]);
            Guarded(h, {date}) && !RightAfterDrop(h, {date}, date)
  {
    hide IsSelected, CellOf, Run, Direct, FindDay, RightAfterDrop;
    var events := [Write(date, [early]), RollUp(date), Write(date, [late])];
    var h := Run(NO_HISTORY, events);
    assert events[..2][..1] == [Write(date, [early])] && events[..2] == [Write(date, [early]), RollUp(date)];
    assert LastRows(events, date) == [late];
    assert LastRows(events[..2][..1], date) == [early];
    assert RolledRows(events[..2], date) == [early];
    assert RolledRows(events, date) == [early];
    hide LastRows, RolledRows;
    DropIsRightExactlyWhen(events, {date}, date);
    DayAfterRun(events, date);
    FoundInRollup(h, date, [late], [early]);
    DelaysTell(date, early, late);
  }
}
