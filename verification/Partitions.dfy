// Weekly partitions of stop_time_observations: src/db/partitions.ts.
//
// Dates are day numbers. A row lives in the partition whose range holds its
// date, and in the default partition if there is none.
module Partitions {
  import opened Wrappers
  import opened Text
  import Calendar
  import opened Transform
  import Upsert

  // -- Names ---------------------------------------------------------------------------

  // Dates with a four-digit year, which is what the date strings are split by.
  predicate FourDigitYear(n: int) {
    0 <= Calendar.CivilOf(n).year <= 9999
  }

  lemma BetweenFourDigitYears(a: int, n: int, b: int)
    requires FourDigitYear(a) && FourDigitYear(b) && a <= n <= b
    ensures FourDigitYear(n)
  {
    hide Calendar.CivilOf, Calendar.DayOf;
    Calendar.BeforeIsDayOrder(Calendar.CivilOf(n), Calendar.CivilOf(a));
    Calendar.BeforeIsDayOrder(Calendar.CivilOf(b), Calendar.CivilOf(n));
  }

  // s.replace(/-/g, "")
  function StripDashes(s: string): string {
    if s == [] then []
    else StripDashes(s[..|s| - 1]) + if s[|s| - 1] == '-' then [] else [s[|s| - 1]]
  }

  lemma {:induction false} StripOfConcat(a: string, b: string)
    ensures StripDashes(a + b) == StripDashes(a) + StripDashes(b)
  {
    if b == [] {
      assert a + b == a;
    } else {
      assert (a + b)[..|a + b| - 1] == a + b[..|b| - 1];
      StripOfConcat(a, b[..|b| - 1]);
    }
  }

  lemma {:induction false} StripOfDigits(s: string)
    requires AllDigits(s)
    ensures StripDashes(s) == s
  {
    if s != [] {
      StripOfDigits(s[..|s| - 1]);
    }
  }

  const PREFIX: string := "stop_time_observations_w"

  function PartitionName(monday: int): string {
    PREFIX + StripDashes(Calendar.DateText(monday))
  }

  lemma StripAfterDash(a: string, x: string)
    requires AllDigits(a)
    ensures StripDashes(a + ("-" + x)) == a + StripDashes(x)
  {
    var dash: string := ['-'];
    assert dash[..0] == [] && StripDashes(dash) == [];
    hide StripDashes, AllDigits;
    StripOfConcat(a, dash + x);
    StripOfConcat(dash, x);
    StripOfDigits(a);
    assert [] + StripDashes(x) == StripDashes(x);
  }

  lemma StripDate(y: string, m: string, d: string)
    requires AllDigits(y) && AllDigits(m) && AllDigits(d)
    ensures StripDashes(y + ("-" + (m + ("-" + d)))) == y + (m + d)
  {
    hide StripDashes, AllDigits;
    StripAfterDash(y, m + ("-" + d));
    StripAfterDash(m, d);
    StripOfDigits(d);
  }

  lemma NameDigits(n: int)
    requires FourDigitYear(n)
    ensures var c := Calendar.CivilOf(n);
            StripDashes(Calendar.DateText(n)) == Pad4(c.year) + (Pad2(c.month) + Pad2(c.day))
  {
    hide Pad4, Pad2, StripDashes, Calendar.CivilOf;
    var c := Calendar.CivilOf(n);
    StripDate(Pad4(c.year), Pad2(c.month), Pad2(c.day));
    assert Calendar.DateText(n) == Pad4(c.year) + Calendar.Tail(c.month, c.day);
    assert Calendar.Tail(c.month, c.day) == "-" + (Pad2(c.month) + ("-" + Pad2(c.day)));
  }

  lemma DigitsInjective(y: string, m: string, d: string, y': string, m': string, d': string)
    requires |y| == |y'| && |m| == |m'| && y + (m + d) == y' + (m' + d')
    ensures y == y' && m == m' && d == d'
  {
    var s := y + (m + d);
    assert s[..|y|] == y && s[..|y|] == y' && s[|y|..] == m + d && s[|y|..] == m' + d';
    assert (m + d)[..|m|] == m && (m + d)[..|m|] == m' && (m + d)[|m|..] == d && (m + d)[|m|..] == d';
  }

  lemma StripOfName(n: int)
    ensures PartitionName(n)[|PREFIX|..] == StripDashes(Calendar.DateText(n))
  {
    hide StripDashes, Calendar.DateText;
  }

  // The name of the week that begins on a date: its digits, after the table's name.
  lemma NameIsItsMonday(n: int)
    requires FourDigitYear(n)
    ensures var c := Calendar.CivilOf(n);
            PartitionName(n) == "stop_time_observations_w" + (Pad4(c.year) + Pad2(c.month) + Pad2(c.day))
  {
    hide Pad4, Pad2, Calendar.CivilOf, Calendar.DateText, StripDashes;
    NameDigits(n);
    StripOfName(n);
  }

  // A partition's name says which week it holds.
  lemma NameInjective(a: int, b: int)
    requires FourDigitYear(a) && FourDigitYear(b)
    ensures PartitionName(a) == PartitionName(b) ==> a == b
  {
    hide Pad4, Pad2, Calendar.CivilOf, Calendar.DateText, StripDashes, PartitionName;
    if PartitionName(a) == PartitionName(b) {
      NameDigits(a);
      NameDigits(b);
      StripOfName(a);
      StripOfName(b);
      var c, d := Calendar.CivilOf(a), Calendar.CivilOf(b);
      DigitsInjective(Pad4(c.year), Pad2(c.month), Pad2(c.day), Pad4(d.year), Pad2(d.month), Pad2(d.day));
      Pad4Injective(c.year, d.year);
      Pad2Injective(c.month, d.month);
      Pad2Injective(c.day, d.day);
    }
  }

  // -- The catalogue ----------------------------------------------------------------------

  datatype Range = Range(from: int, to: int)

  type Catalogue = map<string, Range>

  // A partition is one calendar week, and its name is that week's.
  ghost predicate IsWeek(name: string, r: Range) {
    && Calendar.DayOfWeek(r.from) == 1 && r.to == r.from + 7
    && FourDigitYear(r.from) && name == PartitionName(r.from)
  }

  ghost predicate AllWeeks(partitions: Catalogue) {
    forall name | name in partitions :: IsWeek(name, partitions[name])
  }

  predicate Holds(r: Range, date: int) {
    r.from <= date < r.to
  }

  // No two partitions overlap: a date's partition is its week's.
  lemma OnePartitionPerDate(partitions: Catalogue, name: string, date: int)
    requires AllWeeks(partitions) && name in partitions && Holds(partitions[name], date)
    ensures partitions[name].from == Calendar.WeekStart(date) && name == PartitionName(Calendar.WeekStart(date))
  {
    hide PartitionName, FourDigitYear;
    Calendar.WeekStartUnique(date, partitions[name].from);
  }

  lemma SameWeek(partitions: Catalogue, a: string, b: string, date: int)
    requires AllWeeks(partitions) && a in partitions && b in partitions
    requires Holds(partitions[a], date) && Holds(partitions[b], date)
    ensures a == b
  {
    hide PartitionName, FourDigitYear;
    OnePartitionPerDate(partitions, a, date);
    OnePartitionPerDate(partitions, b, date);
  }

  lemma PartitionsAreDisjoint(partitions: Catalogue, a: string, b: string)
    requires AllWeeks(partitions) && a in partitions && b in partitions && a != b
    ensures partitions[a].to <= partitions[b].from || partitions[b].to <= partitions[a].from
  {
    hide PartitionName, FourDigitYear;
    var p, q := partitions[a], partitions[b];
    var later := if p.from <= q.from then q.from else p.from;
    assert p.from < p.to && q.from < q.to by {
      assert IsWeek(a, p) && IsWeek(b, q);
    }
    if Holds(p, later) && Holds(q, later) {
      SameWeek(partitions, a, b, later);
    }
  }

  // The Monday the loop starts from, and the weeks it visits.
  lemma StartWeek(fromDate: int, weeksBehind: nat)
    ensures Calendar.WeekStart(fromDate + -7 * weeksBehind) == Calendar.WeekStart(fromDate) - 7 * weeksBehind
  {
    Calendar.WeekStartUnique(fromDate - 7 * weeksBehind, Calendar.WeekStart(fromDate) - 7 * weeksBehind);
  }

  // -- Creating and dropping ----------------------------------------------------------------

  // Rows already in the default partition forbid a partition for their dates, and
  // any statement may fail.
  datatype PartitionError = DefaultPartitionConflict(name: string) | StatementFailed

  function WeekAfter(start: int, i: nat): int {
    start + i * 7
  }

  // The catalogue once the first n weeks have been visited.
  ghost predicate AfterWeeks(before: Catalogue, partitions: Catalogue, start: int, n: nat) {
    && AllWeeks(partitions)
    && (forall name | name in before :: name in partitions && partitions[name] == before[name])
    && (forall name | name in partitions && name !in before ::
          exists i: nat | i < n :: name == PartitionName(WeekAfter(start, i)))
    && (forall i: nat | i < n :: PartitionName(WeekAfter(start, i)) in partitions)
  }

  // Why a row's date stops the loop.
  ghost predicate Blocks(rows: Upsert.Rows, partitions: Catalogue, monday: int) {
    PartitionName(monday) !in partitions
    && exists key | key in rows :: Holds(Range(monday, monday + 7), key.serviceDate)
  }

  // How a call that visited n weeks ended: all of them, or stopped by a statement
  // that failed or by the first week that is blocked.
  ghost predicate IsEnsured(before: Catalogue, rows: Upsert.Rows, after: Catalogue, start: int, weeks: nat, reach: nat,
                            created: Result<seq<string>, PartitionError>, n: nat)
  {
    && AfterWeeks(before, after, start, n)
    && (forall i: nat | i < n :: !Blocks(rows, before, WeekAfter(start, i)))
    && (created.Success? ==> n == weeks && weeks <= reach)
    && (created == Failure(StatementFailed) ==> n == reach && reach < weeks)
    && (created.Failure? && created.error.DefaultPartitionConflict? ==>
          n < weeks && n < reach && Blocks(rows, before, WeekAfter(start, n)))
  }

  // What a call needs to succeed: statements for every week, and no week blocked.
  ghost predicate CanEnsure(before: Catalogue, rows: Upsert.Rows, start: int, weeks: nat, reach: nat) {
    weeks <= reach && forall i: nat | i < weeks :: !Blocks(rows, before, WeekAfter(start, i))
  }

  lemma EnsuredExactlyWhen(before: Catalogue, rows: Upsert.Rows, after: Catalogue, start: int, weeks: nat, reach: nat,
                           created: Result<seq<string>, PartitionError>, n: nat)
    requires IsEnsured(before, rows, after, start, weeks, reach, created, n)
    ensures created.Success? <==> CanEnsure(before, rows, start, weeks, reach)
  {
    hide AfterWeeks, Blocks;
  }

  lemma WeekAdded(before: Catalogue, partitions: Catalogue, start: int, n: nat)
    requires AfterWeeks(before, partitions, start, n)
    requires Calendar.DayOfWeek(start) == 1 && FourDigitYear(WeekAfter(start, n))
    ensures var from := WeekAfter(start, n);
            AfterWeeks(before,
                       if PartitionName(from) in partitions then partitions
                       else partitions[PartitionName(from) := Range(from, from + 7)],
                       start, n + 1)
  {
    hide PartitionName, FourDigitYear;
  }

  lemma FewerRowsCounted(rows: Upsert.Rows, r: Range)
    requires Upsert.Counted(rows)
    ensures Upsert.Counted(map key | key in rows && !Holds(r, key.serviceDate) :: rows[key])
  {
  }

  // The guard: past the cutoff, and no day of it that has rows lacks a rollup.
  predicate MayDrop(r: Range, rows: Upsert.Rows, rolledUp: set<int>, cutoff: int) {
    r.to - 1 < cutoff && forall key | key in rows && Holds(r, key.serviceDate) :: key.serviceDate in rolledUp
  }

  predicate Goes(partitions: Catalogue, rows: Upsert.Rows, rolledUp: set<int>, cutoff: int, date: int) {
    exists name | name in partitions ::
      MayDrop(partitions[name], rows, rolledUp, cutoff) && Holds(partitions[name], date)
  }

  predicate InDropped(partitions: Catalogue, dropped: seq<string>, date: int) {
    exists name | name in dropped && name in partitions :: Holds(partitions[name], date)
  }

  ghost predicate AfterDrops(before: Catalogue, rowsBefore: Upsert.Rows, rolledUp: set<int>, cutoff: int,
                             todo: set<string>, dropped: seq<string>, partitions: Catalogue, rows: Upsert.Rows) {
    && AllWeeks(before) && todo <= before.Keys
    && (forall name :: name in dropped <==>
          name in before && name !in todo && MayDrop(before[name], rowsBefore, rolledUp, cutoff))
    && partitions == (map name | name in before && name !in dropped :: before[name])
    && rows == map key | key in rowsBefore && !InDropped(before, dropped, key.serviceDate) :: rowsBefore[key]
  }

  lemma NoneDropped(partitions: Catalogue, rows: Upsert.Rows, rolledUp: set<int>, cutoff: int)
    requires AllWeeks(partitions)
    ensures AfterDrops(partitions, rows, rolledUp, cutoff, partitions.Keys, [], partitions, rows)
  {
  }

  lemma TodoIsThere(before: Catalogue, rowsBefore: Upsert.Rows, rolledUp: set<int>, cutoff: int, todo: set<string>,
                    dropped: seq<string>, partitions: Catalogue, rows: Upsert.Rows, name: string)
    requires AfterDrops(before, rowsBefore, rolledUp, cutoff, todo, dropped, partitions, rows) && name in todo
    ensures name in partitions
  {
    hide MayDrop, InDropped, IsWeek;
  }

  lemma NotInDropped(before: Catalogue, dropped: seq<string>, name: string, date: int)
    requires AllWeeks(before) && name in before && name !in dropped && Holds(before[name], date)
    ensures !InDropped(before, dropped, date)
  {
    hide PartitionName, FourDigitYear;
    if other :| other in dropped && other in before && Holds(before[other], date) {
      SameWeek(before, name, other, date);
    }
  }

  // Dropping one week touches no other week's rows, so the order does not matter.
  lemma GuardIsUnchanged(before: Catalogue, rowsBefore: Upsert.Rows, rolledUp: set<int>, cutoff: int, todo: set<string>,
                         dropped: seq<string>, partitions: Catalogue, rows: Upsert.Rows, name: string)
    requires AfterDrops(before, rowsBefore, rolledUp, cutoff, todo, dropped, partitions, rows)
    requires name in todo && name in partitions
    ensures name in before && partitions[name] == before[name] && before[name].to == before[name].from + 7
    ensures forall key | key in rows :: key in rowsBefore
    ensures forall key | key in rowsBefore && Holds(before[name], key.serviceDate) :: key in rows
  {
    var r := partitions[name];
    assert IsWeek(name, r);
    forall key | key in rowsBefore && Holds(r, key.serviceDate)
      ensures key in rows
    {
      NotInDropped(before, dropped, name, key.serviceDate);
    }
    hide AllWeeks, InDropped, MayDrop;
  }

  lemma RowsAfterDrop(before: Catalogue, rowsBefore: Upsert.Rows, dropped: seq<string>, rows: Upsert.Rows, name: string)
    requires name in before
    requires rows == map key | key in rowsBefore && !InDropped(before, dropped, key.serviceDate) :: rowsBefore[key]
    ensures (map key | key in rows && !Holds(before[name], key.serviceDate) :: rows[key])
            == map key | key in rowsBefore && !InDropped(before, dropped + [name], key.serviceDate) :: rowsBefore[key]
  {
    forall date
      ensures InDropped(before, dropped + [name], date) <==>
              InDropped(before, dropped, date) || Holds(before[name], date)
    {
      if other :| other in dropped && other in before && Holds(before[other], date) {
        assert other in dropped + [name];
      }
      assert name in dropped + [name];
    }
    hide InDropped;
  }

  lemma WeekDropped(before: Catalogue, rowsBefore: Upsert.Rows, rolledUp: set<int>, cutoff: int, todo: set<string>,
                    dropped: seq<string>, partitions: Catalogue, rows: Upsert.Rows, name: string)
    requires AfterDrops(before, rowsBefore, rolledUp, cutoff, todo, dropped, partitions, rows)
    requires name in todo && name in before && MayDrop(before[name], rowsBefore, rolledUp, cutoff)
    ensures AfterDrops(before, rowsBefore, rolledUp, cutoff, todo - {name}, dropped + [name], partitions - {name},
                       map key | key in rows && !Holds(before[name], key.serviceDate) :: rows[key])
  {
    hide MayDrop, AllWeeks, InDropped, Holds;
    RowsAfterDrop(before, rowsBefore, dropped, rows, name);
    assert partitions - {name} == map other | other in before && other !in dropped + [name] :: before[other];
  }

  lemma WeekKept(before: Catalogue, rowsBefore: Upsert.Rows, rolledUp: set<int>, cutoff: int, todo: set<string>,
                 dropped: seq<string>, partitions: Catalogue, rows: Upsert.Rows, name: string)
    requires AfterDrops(before, rowsBefore, rolledUp, cutoff, todo, dropped, partitions, rows)
    requires name in todo && name in before && !MayDrop(before[name], rowsBefore, rolledUp, cutoff)
    ensures AfterDrops(before, rowsBefore, rolledUp, cutoff, todo - {name}, dropped, partitions, rows)
  {
    hide MayDrop, AllWeeks, InDropped;
  }

  lemma DecideDrop(before: Catalogue, rowsBefore: Upsert.Rows, rolledUp: set<int>, cutoff: int, todo: set<string>,
                   dropped: seq<string>, partitions: Catalogue, rows: Upsert.Rows, name: string)
    requires AfterDrops(before, rowsBefore, rolledUp, cutoff, todo, dropped, partitions, rows)
    requires name in todo && name in partitions
    ensures var r := partitions[name];
            var drop := r.to - 1 < cutoff
                        && forall key | key in rows :: r.to - 7 <= key.serviceDate < r.to ==>
                           key.serviceDate in rolledUp;
            if drop then
              AfterDrops(before, rowsBefore, rolledUp, cutoff, todo - {name}, dropped + [name], partitions - {name},
                         map key | key in rows && !Holds(r, key.serviceDate) :: rows[key])
            else
              AfterDrops(before, rowsBefore, rolledUp, cutoff, todo - {name}, dropped, partitions, rows)
  {
    var r := partitions[name];
    GuardIsUnchanged(before, rowsBefore, rolledUp, cutoff, todo, dropped, partitions, rows, name);
    if MayDrop(r, rowsBefore, rolledUp, cutoff) {
      hide AfterDrops;
      WeekDropped(before, rowsBefore, rolledUp, cutoff, todo, dropped, partitions, rows, name);
    } else {
      hide AfterDrops;
      WeekKept(before, rowsBefore, rolledUp, cutoff, todo, dropped, partitions, rows, name);
    }
  }

  lemma AllDecided(before: Catalogue, rowsBefore: Upsert.Rows, rolledUp: set<int>, cutoff: int,
                   dropped: seq<string>, partitions: Catalogue, rows: Upsert.Rows)
    requires AfterDrops(before, rowsBefore, rolledUp, cutoff, {}, dropped, partitions, rows)
    ensures AllWeeks(partitions)
    ensures forall name :: name in dropped <==> name in before && MayDrop(before[name], rowsBefore, rolledUp, cutoff)
    ensures partitions ==
            (map name | name in before && !MayDrop(before[name], rowsBefore, rolledUp, cutoff) :: before[name])
    ensures rows == map key | key in rowsBefore
                                && !Goes(before, rowsBefore, rolledUp, cutoff, key.serviceDate) :: rowsBefore[key]
  {
    hide MayDrop, IsWeek;
    forall date
      ensures InDropped(before, dropped, date) == Goes(before, rowsBefore, rolledUp, cutoff, date)
    {
    }
    hide InDropped, Goes;
  }

  // The guard and what goes with a partition, in dates.
  ghost predicate DropsExpired(before: Catalogue, rowsBefore: Upsert.Rows, rolledUp: set<int>, cutoff: int,
                               dropped: seq<string>, partitions: Catalogue, rows: Upsert.Rows)
  {
    && (forall name :: name in dropped <==>
          && name in before && before[name].to - 1 < cutoff
          && forall key | key in rowsBefore && before[name].from <= key.serviceDate < before[name].to ::
               key.serviceDate in rolledUp)
    && (forall name :: name in partitions <==> name in before && name !in dropped)
    && (forall name | name in partitions :: partitions[name] == before[name])
    && (forall key :: key in rows <==>
          && key in rowsBefore
          && forall name | name in dropped :: !(before[name].from <= key.serviceDate < before[name].to))
    && forall key | key in rows :: rows[key] == rowsBefore[key]
  }

  lemma DroppedMeans(before: Catalogue, rowsBefore: Upsert.Rows, rolledUp: set<int>, cutoff: int, dropped: seq<string>,
                     partitions: Catalogue, rows: Upsert.Rows)
    requires forall name :: name in dropped <==> name in before && MayDrop(before[name], rowsBefore, rolledUp, cutoff)
    requires partitions ==
             (map name | name in before && !MayDrop(before[name], rowsBefore, rolledUp, cutoff) :: before[name])
    requires rows == map key | key in rowsBefore
                                && !Goes(before, rowsBefore, rolledUp, cutoff, key.serviceDate) :: rowsBefore[key]
    ensures DropsExpired(before, rowsBefore, rolledUp, cutoff, dropped, partitions, rows)
  {
  }

  lemma NoWeeks(partitions: Catalogue, start: int)
    requires AllWeeks(partitions)
    ensures AfterWeeks(partitions, partitions, start, 0)
  {
    hide IsWeek;
  }

  lemma WeeksAreWeeks(before: Catalogue, partitions: Catalogue, start: int, n: nat)
    requires AfterWeeks(before, partitions, start, n)
    ensures AllWeeks(partitions)
  {
    hide IsWeek;
  }

  // Visiting a week does not change whether it was blocked.
  lemma WeekBlocks(before: Catalogue, partitions: Catalogue, rows: Upsert.Rows, start: int, n: nat)
    requires AfterWeeks(before, partitions, start, n) && Calendar.DayOfWeek(start) == 1
    requires FourDigitYear(start) && FourDigitYear(WeekAfter(start, n))
    ensures PartitionName(WeekAfter(start, n)) in partitions <==> PartitionName(WeekAfter(start, n)) in before
    ensures Blocks(rows, before, WeekAfter(start, n)) <==>
            PartitionName(WeekAfter(start, n)) !in partitions
            && exists key | key in rows :: Holds(Range(WeekAfter(start, n), WeekAfter(start, n) + 7), key.serviceDate)
  {
    hide PartitionName, FourDigitYear, IsWeek;
    var name := PartitionName(WeekAfter(start, n));
    if name in partitions && name !in before {
      var i: nat :| i < n && name == PartitionName(WeekAfter(start, i));
      BetweenFourDigitYears(start, WeekAfter(start, i), WeekAfter(start, n));
      NameInjective(WeekAfter(start, i), WeekAfter(start, n));
    }
  }

  class PartitionedTable {
    var partitions: Catalogue
    const table: Upsert.ObservationTable
    // The dates that have a row in rollup_daily.
    var rolledUp: set<int>

    ghost predicate Valid()
      reads this, table
    {
      AllWeeks(partitions) && table.Valid()
    }

    constructor (table: Upsert.ObservationTable, rolledUp: set<int>)
      requires table.Valid()
      ensures Valid() && partitions == map[] && this.table == table && this.rolledUp == rolledUp
    {
      partitions, this.table, this.rolledUp := map[], table, rolledUp;
    }

    // Every partition there was is kept and every one created is a visited week.
    // `reach` is how many weeks are visited before a statement fails. The call
    // succeeds exactly when that is all of them and no visited week had rows
    // without a partition.
    method EnsurePartitions(fromDate: int, weeksAhead: nat, weeksBehind: nat, reach: nat)
      returns (created: Result<seq<string>, PartitionError>)
      requires Valid()
      requires FourDigitYear(Calendar.WeekStart(fromDate) - 7 * weeksBehind)
      requires FourDigitYear(Calendar.WeekStart(fromDate) + 7 * weeksAhead)
      modifies this`partitions
      ensures Valid()
      ensures var start := Calendar.WeekStart(fromDate) - 7 * weeksBehind;
              var weeks := weeksAhead + weeksBehind + 1;
              exists n :: IsEnsured(old(partitions), table.rows, partitions, start, weeks, reach, created, n)
      ensures created.Success? ==>
                forall name :: name in created.value <==> name in partitions && name !in old(partitions)
    {
      hide Calendar.DayOfWeek, PartitionName, FourDigitYear, AfterWeeks, Blocks, Upsert.Counted;
      StartWeek(fromDate, weeksBehind);
      var names: seq<string> := [];
      var start := Calendar.WeekStart(fromDate + -7 * weeksBehind);
      var weeks := weeksAhead + weeksBehind + 1;
      NoWeeks(partitions, start);
      for i := 0 to weeks
        invariant AfterWeeks(old(partitions), partitions, start, i) && i <= reach
        invariant forall name :: name in names <==> name in partitions && name !in old(partitions)
        invariant forall j: nat | j < i :: !Blocks(table.rows, old(partitions), WeekAfter(start, j))
      {
        var from := WeekAfter(start, i);
        var to := from + 7;
        var name := PartitionName(from);
        WeeksAreWeeks(old(partitions), partitions, start, i);
        if i == reach {
          created := Failure(StatementFailed);
          assert IsEnsured(old(partitions), table.rows, partitions, start, weeks, reach, created, i);
          return;
        }
        BetweenFourDigitYears(start, from, start + 7 * (weeks - 1));
        WeekAdded(old(partitions), partitions, start, i);
        WeekBlocks(old(partitions), partitions, table.rows, start, i);
        if name !in partitions {
          if exists key | key in table.rows :: Holds(Range(from, to), key.serviceDate) {
            created := Failure(DefaultPartitionConflict(name));
            assert IsEnsured(old(partitions), table.rows, partitions, start, weeks, reach, created, i);
            return;
          }
          partitions := partitions[name := Range(from, to)];
          names := names + [name];
        }
      }
      WeeksAreWeeks(old(partitions), partitions, start, weeks);
      created := Success(names);
      assert IsEnsured(old(partitions), table.rows, partitions, start, weeks, reach, created, weeks);
    }

    // A partition goes exactly when it ends before the cutoff and each of its days
    // that has rows has a daily rollup; its rows go with it, and no others.
    method DropExpiredPartitions(today: int, retainDays: int) returns (dropped: seq<string>)
      requires Valid()
      modifies this`partitions, table
      ensures Valid()
      ensures DropsExpired(old(partitions), old(table.rows), rolledUp, today - retainDays, dropped, partitions,
                           table.rows)
      ensures forall name :: name in dropped <==>
                name in old(partitions) && MayDrop(old(partitions)[name], old(table.rows), rolledUp, today - retainDays)
      ensures var cutoff := today - retainDays;
              && partitions == (map name | name in old(partitions)
                                           && !MayDrop(old(partitions)[name], old(table.rows), rolledUp, cutoff) ::
                                              old(partitions)[name])
              && table.rows == map key | key in old(table.rows)
                                   && !Goes(old(partitions), old(table.rows), rolledUp, cutoff, key.serviceDate) ::
                                      old(table.rows)[key]
    {
      hide AfterDrops, MayDrop, InDropped, Goes, AllWeeks, Upsert.Counted, DropsExpired;
      var cutoff := today - retainDays;
      dropped := [];
      var todo := partitions.Keys;
      NoneDropped(partitions, table.rows, rolledUp, cutoff);
      while todo != {}
        invariant Upsert.Counted(table.rows)
        invariant AfterDrops(old(partitions), old(table.rows), rolledUp, cutoff, todo, dropped, partitions, table.rows)
        decreases |todo|
      {
        var name :| name in todo;
        TodoIsThere(old(partitions), old(table.rows), rolledUp, cutoff, todo, dropped, partitions, table.rows, name);
        var upper := partitions[name].to;
        DecideDrop(old(partitions), old(table.rows), rolledUp, cutoff, todo, dropped, partitions, table.rows, name);
        todo := todo - {name};
        if upper - 1 < cutoff
          && (forall key | key in table.rows :: upper - 7 <= key.serviceDate < upper ==> key.serviceDate in rolledUp) {
          var r := partitions[name];
          partitions := partitions - {name};
          FewerRowsCounted(table.rows, r);
          table.rows := map key | key in table.rows && !Holds(r, key.serviceDate) :: table.rows[key];
          dropped := dropped + [name];
        }
      }
      AllDecided(old(partitions), old(table.rows), rolledUp, cutoff, dropped, partitions, table.rows);
      DroppedMeans(old(partitions), old(table.rows), rolledUp, cutoff, dropped, partitions, table.rows);
    }
  }

  // -- What maintenance promises ---------------------------------------------------------------

  // Every date from the first Monday visited to the last Sunday has exactly one
  // partition.
  lemma EnsuredDatesAreCovered(before: Catalogue, partitions: Catalogue, fromDate: int, weeksAhead: nat,
                               weeksBehind: nat, date: int)
    requires AfterWeeks(before, partitions, Calendar.WeekStart(fromDate) - 7 * weeksBehind,
                        weeksAhead + weeksBehind + 1)
    requires Calendar.WeekStart(fromDate) - 7 * weeksBehind <= date <= Calendar.WeekStart(fromDate) + 7 * weeksAhead + 6
    requires FourDigitYear(Calendar.WeekStart(fromDate) - 7 * weeksBehind)
    requires FourDigitYear(Calendar.WeekStart(fromDate) + 7 * weeksAhead)
    ensures exists name :: (name in partitions && Holds(partitions[name], date))
                           && forall other | other in partitions && Holds(partitions[other], date) :: other == name
  {
    hide PartitionName, FourDigitYear;
    var start := Calendar.WeekStart(fromDate) - 7 * weeksBehind;
    var i := (date - start) / 7;
    var monday := WeekAfter(start, i);
    var name := PartitionName(monday);
    assert name in partitions && IsWeek(name, partitions[name]);
    BetweenFourDigitYears(start, monday, Calendar.WeekStart(fromDate) + 7 * weeksAhead);
    NameInjective(partitions[name].from, monday);
    forall other | other in partitions && Holds(partitions[other], date)
      ensures other == name
    {
      SameWeek(partitions, other, name, date);
    }
  }

  ghost predicate HasPartition(partitions: Catalogue, date: int) {
    exists name | name in partitions :: Holds(partitions[name], date)
  }

  // A call that succeeded leaves every date it visited with a partition.
  lemma EnsuredHavePartitions(before: Catalogue, rows: Upsert.Rows, after: Catalogue, fromDate: int, weeksAhead: nat,
                              weeksBehind: nat, reach: nat, created: Result<seq<string>, PartitionError>,
                              n: nat)
    requires created.Success?
    requires IsEnsured(before, rows, after, Calendar.WeekStart(fromDate) - 7 * weeksBehind,
                       weeksAhead + weeksBehind + 1, reach, created, n)
    requires FourDigitYear(Calendar.WeekStart(fromDate) - 7 * weeksBehind)
    requires FourDigitYear(Calendar.WeekStart(fromDate) + 7 * weeksAhead)
    ensures var monday := Calendar.WeekStart(fromDate);
            forall date | monday - 7 * weeksBehind <= date <= monday + 7 * weeksAhead + 6 :: HasPartition(after, date)
  {
    hide AfterWeeks, FourDigitYear, Blocks;
    forall date |
      Calendar.WeekStart(fromDate) - 7 * weeksBehind <= date <= Calendar.WeekStart(fromDate) + 7 * weeksAhead + 6
      ensures HasPartition(after, date)
    {
      EnsuredDatesAreCovered(before, after, fromDate, weeksAhead, weeksBehind, date);
    }
  }

  // -- Any number of jobs ----------------------------------------------------------------------

  datatype Table = Table(partitions: Catalogue, rows: Upsert.Rows, rolledUp: set<int>)

  // The jobs that touch the table. Rebuilding a day's rollup leaves it with a row
  // or, deleting first, without one.
  datatype Job =
    | Ensure(fromDate: int, weeksAhead: nat, weeksBehind: nat)
    | Drop(today: int, retainDays: int)
    | Poll(batch: seq<ObservationRow>)
    | RollUp(date: int, found: bool)

  ghost predicate IsStep(t: Table, job: Job, next: Table) {
    match job
    case Ensure(fromDate, weeksAhead, weeksBehind) =>
      var start := Calendar.WeekStart(fromDate) - 7 * weeksBehind;
      && (exists n: nat :: AfterWeeks(t.partitions, next.partitions, start, n))
      && next.rows == t.rows && next.rolledUp == t.rolledUp
    case Drop(today, retainDays) =>
      var cutoff := today - retainDays;
      && next.rolledUp == t.rolledUp
      && next.partitions ==
         (map name | name in t.partitions && !MayDrop(t.partitions[name], t.rows, t.rolledUp, cutoff) ::
           t.partitions[name])
      && next.rows == map key | key in t.rows && !Goes(t.partitions, t.rows, t.rolledUp, cutoff, key.serviceDate) ::
         t.rows[key]
    case Poll(batch) =>
      next == t.(rows := Upsert.ApplyRows(t.rows, batch))
    case RollUp(date, found) =>
      next == t.(rolledUp := if found then t.rolledUp + {date} else t.rolledUp - {date})
  }

  ghost predicate IsTrace(tables: seq<Table>, jobs: seq<Job>) {
    |tables| == |jobs| + 1 && forall i | 0 <= i < |jobs| :: IsStep(tables[i], jobs[i], tables[i + 1])
  }

  // The job that may take a row: a drop, with the row's day past the retention
  // and in rollup_daily at that moment.
  ghost predicate Takes(t: Table, job: Job, key: RowKey) {
    job.Drop? && key.serviceDate < job.today - job.retainDays && key.serviceDate in t.rolledUp
  }

  lemma {:induction false} ApplyRowsKeepsKeys(rows: Upsert.Rows, batch: seq<ObservationRow>, key: RowKey)
    requires key in rows
    ensures key in Upsert.ApplyRows(rows, batch)
  {
    if batch != [] {
      ApplyRowsKeepsKeys(rows, batch[..|batch| - 1], key);
    }
  }

  lemma StepKeepsWeeks(t: Table, job: Job, next: Table, key: RowKey)
    requires AllWeeks(t.partitions) && IsStep(t, job, next)
    ensures AllWeeks(next.partitions)
    ensures key in t.rows && key !in next.rows ==> Takes(t, job, key)
  {
    hide IsWeek;
    match job
    case Ensure(_, _, _) =>
    case Drop(_, _) =>
    case Poll(batch) =>
      if key in t.rows {
        ApplyRowsKeepsKeys(t.rows, batch, key);
      }
    case RollUp(_, _) =>
  }

  // Over any sequence of polls, rollups, creations and drops, partitions stay
  // disjoint weeks, and the only rows ever lost were past retention on a day that
  // was in rollup_daily when they went.
  lemma {:induction false} OnlyRolledUpDaysAreLost(tables: seq<Table>, jobs: seq<Job>, key: RowKey)
    requires IsTrace(tables, jobs) && AllWeeks(tables[0].partitions)
    ensures AllWeeks(tables[|jobs|].partitions)
    ensures key in tables[0].rows && key !in tables[|jobs|].rows ==>
              exists i | 0 <= i < |jobs| :: Takes(tables[i], jobs[i], key)
  {
    if jobs != [] {
      hide AllWeeks, IsStep, Takes;
      var n := |jobs| - 1;
      assert IsTrace(tables[..|jobs|], jobs[..n]);
      OnlyRolledUpDaysAreLost(tables[..|jobs|], jobs[..n], key);
      StepKeepsWeeks(tables[n], jobs[n], tables[n + 1], key);
      if key in tables[0].rows && key !in tables[n].rows {
        var i :| 0 <= i < n && Takes(tables[..|jobs|][i], jobs[..n][i], key);
        assert Takes(tables[i], jobs[i], key);
      }
    }
  }
}
