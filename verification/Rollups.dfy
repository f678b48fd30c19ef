// The rollup algebra: build_rollup_daily of sql/003_rollups.sql as a first stage
// of aggregation and build_stop_route_hour_stats of sql/004_stats.sql as a second.
module Rollups {
  import opened Wrappers
  import opened Upsert
  import Calendar

  // A row of stop_time_observations and the service_date of its key.
  datatype Observation = Observation(serviceDate: int, row: StoredRow)

  datatype Cell = Cell(stopId: string, routeId: string, hour: int, dayType: int)

  // observation_is_countable
  predicate IsCountable(row: StoredRow) {
    && row.scheduledSource == 1
    && row.scheduleRelationship == 0
    && row.DelaySeconds().Some?
    && -7200 < row.DelaySeconds().value < 7200
  }

  predicate IsSelected(row: StoredRow) {
    row.scheduledHourLocal.Some? && row.dayType.Some? && IsCountable(row)
  }

  function CellOf(row: StoredRow): Cell
    requires IsSelected(row)
  {
    Cell(row.stopId, row.routeId, row.scheduledHourLocal.value, row.dayType.value)
  }

  // -- Aggregates of a list of delays --------------------------------------------------

  function Sum(xs: seq<int>): int {
    if xs == [] then 0 else Sum(xs[..|xs| - 1]) + xs[|xs| - 1]
  }

  function SumOfSquares(xs: seq<int>): int {
    if xs == [] then 0 else SumOfSquares(xs[..|xs| - 1]) + xs[|xs| - 1] * xs[|xs| - 1]
  }

  function Least(xs: seq<int>): int
    requires xs != []
  {
    if |xs| == 1 then xs[0] else Min(Least(xs[..|xs| - 1]), xs[|xs| - 1])
  }

  function Greatest(xs: seq<int>): int
    requires xs != []
  {
    if |xs| == 1 then xs[0] else Max(Greatest(xs[..|xs| - 1]), xs[|xs| - 1])
  }

  function CountFrom(xs: seq<int>, bound: int): nat {
    if xs == [] then 0 else CountFrom(xs[..|xs| - 1], bound) + if xs[|xs| - 1] >= bound then 1 else 0
  }

  function CountUpTo(xs: seq<int>, bound: int): nat {
    if xs == [] then 0 else CountUpTo(xs[..|xs| - 1], bound) + if xs[|xs| - 1] <= bound then 1 else 0
  }

  datatype Aggregate = Aggregate(
    n: nat, sumDelay: int, sumDelaySq: int, minDelay: int, maxDelay: int, nLate240: nat, nLate300: nat, nEarly60: nat)

  // One group of `group by`, which exists only if it has a row.
  function Summary(delays: seq<int>): Option<Aggregate> {
    if delays == [] then None
    else
      Some(Aggregate(|delays|, Sum(delays), SumOfSquares(delays), Least(delays), Greatest(delays),
                     CountFrom(delays, 240), CountFrom(delays, 300), CountUpTo(delays, -60)))
  }

  // sum, min and max of the daily columns: the second stage on two daily rows.
  function Merge(a: Option<Aggregate>, b: Option<Aggregate>): Option<Aggregate> {
    if a.None? then b
    else if b.None? then a
    else
      var x, y := a.value, b.value;
      Some(Aggregate(x.n + y.n, x.sumDelay + y.sumDelay, x.sumDelaySq + y.sumDelaySq,
                     Min(x.minDelay, y.minDelay), Max(x.maxDelay, y.maxDelay),
                     x.nLate240 + y.nLate240, x.nLate300 + y.nLate300, x.nEarly60 + y.nEarly60))
  }

  lemma MergeIsCommutativeMonoid(a: Option<Aggregate>, b: Option<Aggregate>, c: Option<Aggregate>)
    ensures Merge(a, b) == Merge(b, a)
    ensures Merge(Merge(a, b), c) == Merge(a, Merge(b, c))
    ensures Merge(a, None) == a == Merge(None, a)
  {
  }

  lemma SummaryOfOne(x: int)
    ensures Summary([x]) == Some(Aggregate(1, x, x * x, x, x, if x >= 240 then 1 else 0, if x >= 300 then 1 else 0,
                                           if x <= -60 then 1 else 0))
  {
    assert [x][..0] == [];
    assert Sum([]) == 0 && SumOfSquares([]) == 0;
    assert Sum([x]) == x && SumOfSquares([x]) == x * x;
    assert CountFrom([], 240) == 0 && CountFrom([], 300) == 0 && CountUpTo([], -60) == 0;
  }

  lemma SummaryStep(xs: seq<int>, x: int)
    ensures Summary(xs + [x]) == Merge(Summary(xs), Summary([x]))
  {
    SummaryOfOne(x);
    assert (xs + [x])[..|xs|] == xs;
  }

  // Summarising is a homomorphism, whatever the rows are cut into.
  lemma {:induction false} SummaryOfConcat(xs: seq<int>, ys: seq<int>)
    ensures Summary(xs + ys) == Merge(Summary(xs), Summary(ys))
  {
    if ys == [] {
      assert xs + ys == xs;
    } else {
      hide Summary, Merge;
      var n := |ys| - 1;
      SummaryOfConcat(xs, ys[..n]);
      assert xs + ys == (xs + ys[..n]) + [ys[n]] && ys == ys[..n] + [ys[n]];
      SummaryStep(xs + ys[..n], ys[n]);
      SummaryStep(ys[..n], ys[n]);
      MergeIsCommutativeMonoid(Summary(xs), Summary(ys[..n]), Summary([ys[n]]));
    }
  }

  // -- What the stored sums promise --------------------------------------------------

  function Times(a: int, b: int): int { a * b }

  function Square(a: int): int { Times(a, a) }

  lemma Distribute(a: int, b: int, c: int)
    ensures Times(a + b, c) == Times(a, c) + Times(b, c) && Times(c, a + b) == Times(c, a) + Times(c, b)
  {
  }

  lemma Rearrange(a: int, b: int, c: int)
    ensures Times(a, Times(b, c)) == Times(b, Times(a, c)) && Times(a, b) == Times(b, a)
  {
  }

  lemma Negate(a: int, b: int)
    ensures Times(a, -b) == -Times(a, b) && Times(-a, b) == -Times(a, b) && Times(1, b) == b
  {
  }

  lemma SquareOfSum(a: int, b: int)
    ensures Square(a + b) == Square(a) + 2 * Times(a, b) + Square(b)
  {
    hide Times;
    Distribute(a, b, a + b);
    Distribute(a, b, a);
    Distribute(a, b, b);
    Rearrange(a, b, 0);
  }

  lemma SquareIsNonNegative(a: int)
    ensures Square(a) >= 0
  {
  }

  lemma ScaledSquare(n: int, x: int)
    ensures Times(n, Times(n, Square(x))) == Square(Times(n, x))
  {
    hide Times;
    var y := Times(n, x);
    calc {
      Times(n, Times(n, Times(x, x)));
      == { Rearrange(n, x, x); }
      Times(n, Times(x, y));
      == { Rearrange(x, y, 0); }
      Times(n, Times(y, x));
      == { Rearrange(n, y, x); }
      Times(y, y);
    }
  }

  lemma ScaledCross(n: int, s: int, x: int)
    ensures Times(n, -2 * Times(s, x)) == -2 * Times(s, Times(n, x))
  {
    hide Times;
    var c := Times(s, x);
    Distribute(-c, -c, n);
    Negate(n, c);
    Rearrange(n, s, x);
  }

  // What one more value x adds, times n, is at least (sum - n x)^2.
  lemma NewTerms(n: int, s: int, q: int, x: int)
    requires Times(n, q) >= Square(s)
    ensures Times(n, q + Times(n, Square(x)) + -2 * Times(s, x)) >= 0
  {
    hide Times;
    var y := Times(n, x);
    Distribute(q + Times(n, Square(x)), -2 * Times(s, x), n);
    Distribute(q, Times(n, Square(x)), n);
    ScaledSquare(n, x);
    ScaledCross(n, s, x);
    SquareOfSum(s, -y);
    Negate(s, y);
    Negate(y, -y);
    Negate(y, y);
    SquareIsNonNegative(s - y);
  }

  lemma NothingTimes(a: int)
    ensures Times(0, a) == 0
  {
  }

  lemma NegativeProduct(n: int, v: int)
    requires n > 0
    ensures v < 0 ==> Times(n, v) < 0
  {
  }

  lemma SquareOfStep(n: int, s: int, q: int, x: int)
    requires n >= 0 && Times(n, q) >= Square(s) && (n == 0 ==> s == 0) && q >= 0
    ensures Times(n + 1, q + Square(x)) >= Square(s + x)
  {
    hide Times;
    calc {
      Times(n + 1, q + Square(x));
      == { Distribute(n, 1, q + Square(x)); Negate(0, q + Square(x)); }
      Times(n, q + Square(x)) + q + Square(x);
      == { Distribute(q, Square(x), n); }
      Times(n, q) + Times(n, Square(x)) + q + Square(x);
    }
    SquareOfSum(s, x);
    if n > 0 {
      NewTerms(n, s, q, x);
      NegativeProduct(n, q + Times(n, Square(x)) + -2 * Times(s, x));
    } else {
      NothingTimes(Square(x));
      NothingTimes(x);
      NothingTimes(q);
      NothingTimes(0);
    }
  }

  // n * sum(x^2) >= sum(x)^2: in exact arithmetic the variance is never
  // negative, so greatest(0, ...) changes nothing.
  lemma {:induction false} VarianceIsNonNegative(xs: seq<int>)
    ensures |xs| * SumOfSquares(xs) >= Sum(xs) * Sum(xs) && SumOfSquares(xs) >= 0
  {
    if xs != [] {
      var n := |xs| - 1;
      VarianceIsNonNegative(xs[..n]);
      assert n == 0 ==> Sum(xs[..n]) == 0;
      SquareOfStep(n, Sum(xs[..n]), SumOfSquares(xs[..n]), xs[n]);
      SquareIsNonNegative(xs[n]);
    }
  }

  // The thresholds nest, and the extremes are attained.
  lemma {:induction false} AggregateIsInOrder(xs: seq<int>)
    requires xs != []
    ensures var a := Summary(xs).value;
            && a.nLate300 <= a.nLate240 <= a.n && a.nEarly60 + a.nLate240 <= a.n
            && a.minDelay in xs && a.maxDelay in xs && (forall x | x in xs :: a.minDelay <= x <= a.maxDelay)
  {
    var n := |xs| - 1;
    var x := xs[n];
    SummaryOfOne(x);
    if n == 0 {
      assert xs == [x];
    } else {
      assert xs == xs[..n] + [x];
      AggregateIsInOrder(xs[..n]);
      SummaryStep(xs[..n], x);
    }
  }

  lemma OneMoreTimes(n: int, k: int)
    ensures (n + 1) * k == n * k + k
  {
  }

  // Any bounds on the delays bound their mean.
  lemma {:induction false} MeanIsBounded(xs: seq<int>, low: int, high: int)
    requires forall x | x in xs :: low <= x <= high
    ensures |xs| * low <= Sum(xs) <= |xs| * high
  {
    if xs != [] {
      var n := |xs| - 1;
      assert xs[n] in xs && forall y | y in xs[..n] :: y in xs;
      MeanIsBounded(xs[..n], low, high);
      OneMoreTimes(n, low);
      OneMoreTimes(n, high);
      assert |xs[..n]| == n && |xs| == n + 1;
    }
  }

  lemma SquareBound(x: int)
    requires -7200 < x < 7200
    ensures 0 <= x * x <= 7199 * 7199
  {
  }

  // Sums of countable delays stay within 64 bits while the count stays within 31.
  lemma {:induction false} SumsFit64Bits(xs: seq<int>)
    requires forall x | x in xs :: -7200 < x < 7200
    ensures |xs| * -7199 <= Sum(xs) <= |xs| * 7199 && 0 <= SumOfSquares(xs) <= 7199 * 7199 * |xs|
    ensures |xs| < 0x8000_0000 ==>
              -0x8000_0000_0000_0000 <= Sum(xs) < 0x8000_0000_0000_0000 && SumOfSquares(xs) < 0x8000_0000_0000_0000
  {
    if xs != [] {
      var n := |xs| - 1;
      assert xs[n] in xs && forall y | y in xs[..n] :: y in xs;
      SquareBound(xs[n]);
      SumsFit64Bits(xs[..n]);
    }
    MeanIsBounded(xs, -7199, 7199);
  }

  // -- group by ----------------------------------------------------------------------

  type Groups = seq<(Cell, Aggregate)>

  ghost predicate KeysDistinct(groups: Groups) {
    forall i, j | 0 <= i < j < |groups| :: groups[i].0 != groups[j].0
  }

  // The row of a cell in a grouped table.
  function Find(groups: Groups, cell: Cell): Option<Aggregate> {
    if groups == [] then None
    else
      var n := |groups| - 1;
      if groups[n].0 == cell then Some(groups[n].1) else Find(groups[..n], cell)
  }

  function Bump(groups: Groups, cell: Cell, a: Aggregate): Groups {
    if groups == [] then [(cell, a)]
    else
      var n := |groups| - 1;
      if groups[n].0 == cell then groups[..n] + [(cell, Merge(Some(groups[n].1), Some(a)).value)]
      else Bump(groups[..n], cell, a) + [groups[n]]
  }

  function GroupBy(rows: Groups): Groups {
    if rows == [] then [] else Bump(GroupBy(rows[..|rows| - 1]), rows[|rows| - 1].0, rows[|rows| - 1].1)
  }

  // The same, cell by cell: all the rows of one cell, merged.
  function Total(rows: Groups, cell: Cell): Option<Aggregate> {
    if rows == [] then None
    else
      var n := |rows| - 1;
      Merge(Total(rows[..n], cell), if rows[n].0 == cell then Some(rows[n].1) else None)
  }

  lemma MergeSome(a: Aggregate, b: Aggregate)
    ensures Merge(Some(a), Some(b)).Some?
  {
  }

  lemma {:induction false} BumpFinds(groups: Groups, cell: Cell, a: Aggregate, other: Cell)
    ensures Find(Bump(groups, cell, a), other) ==
            if other == cell then Merge(Find(groups, cell), Some(a)) else Find(groups, other)
  {
    hide Merge;
    if groups == [] {
      assert Bump(groups, cell, a)[..0] == [];
      MergeIsCommutativeMonoid(Some(a), None, None);
    } else {
      var n := |groups| - 1;
      var bumped := Bump(groups, cell, a);
      if groups[n].0 == cell {
        assert bumped[..n] == groups[..n];
        MergeSome(groups[n].1, a);
      } else {
        BumpFinds(groups[..n], cell, a, other);
        assert bumped[..|bumped| - 1] == Bump(groups[..n], cell, a);
      }
    }
  }

  lemma {:induction false} BumpCells(groups: Groups, cell: Cell, a: Aggregate)
    requires KeysDistinct(groups)
    ensures KeysDistinct(Bump(groups, cell, a))
    ensures forall g | g in Bump(groups, cell, a) :: g.0 == cell || exists h | h in groups :: h.0 == g.0
  {
    if groups != [] {
      hide Merge;
      var n := |groups| - 1;
      assert groups == groups[..n] + [groups[n]];
      if groups[n].0 != cell {
        BumpCells(groups[..n], cell, a);
        forall g | g in Bump(groups[..n], cell, a)
          ensures g.0 != groups[n].0
        {
          if g.0 != cell {
            var h :| h in groups[..n] && h.0 == g.0;
          }
        }
        forall g | g in Bump(groups, cell, a)
          ensures g.0 == cell || exists h | h in groups :: h.0 == g.0
        {
          if g in Bump(groups[..n], cell, a) && g.0 != cell {
            var h :| h in groups[..n] && h.0 == g.0;
            assert h in groups;
          }
        }
      }
    }
  }

  // Grouping yields one row a cell, and that row is the cell's total.
  lemma {:induction false} GroupByTotals(rows: Groups, cell: Cell)
    ensures KeysDistinct(GroupBy(rows))
    ensures Find(GroupBy(rows), cell) == Total(rows, cell)
  {
    if rows != [] {
      hide Merge, Bump, KeysDistinct;
      var n := |rows| - 1;
      GroupByTotals(rows[..n], cell);
      BumpCells(GroupBy(rows[..n]), rows[n].0, rows[n].1);
      BumpFinds(GroupBy(rows[..n]), rows[n].0, rows[n].1, cell);
      MergeIsCommutativeMonoid(Total(rows[..n], cell), None, None);
    } else {
      assert KeysDistinct([]);
    }
  }

  // -- The raw table, aggregated directly -----------------------------------------------

  // The countable delays of one cell on some days, in table order.
  function Delays(table: seq<Observation>, days: int -> bool, cell: Cell): seq<int> {
    if table == [] then []
    else
      var n := |table| - 1;
      var o := table[n];
      Delays(table[..n], days, cell)
      + if IsSelected(o.row) && CellOf(o.row) == cell && days(o.serviceDate) then [o.row.DelaySeconds().value] else []
  }

  function Direct(table: seq<Observation>, days: int -> bool, cell: Cell): Option<Aggregate> {
    Summary(Delays(table, days, cell))
  }

  lemma {:induction false} DelaysAreCountable(table: seq<Observation>, days: int -> bool, cell: Cell)
    ensures forall x | x in Delays(table, days, cell) :: -7200 < x < 7200
  {
    if table != [] {
      DelaysAreCountable(table[..|table| - 1], days, cell);
    }
  }

  // What one more row adds.
  function Part(o: Observation, days: int -> bool, cell: Cell): Option<Aggregate> {
    if IsSelected(o.row) && CellOf(o.row) == cell && days(o.serviceDate)
    then Summary([o.row.DelaySeconds().value]) else None
  }

  lemma DirectStep(table: seq<Observation>, o: Observation, days: int -> bool, cell: Cell)
    ensures Direct(table + [o], days, cell) == Merge(Direct(table, days, cell), Part(o, days, cell))
  {
    hide Summary, Merge, CellOf;
    assert (table + [o])[..|table|] == table;
    var before := Delays(table, days, cell);
    if IsSelected(o.row) && CellOf(o.row) == cell && days(o.serviceDate) {
      SummaryStep(before, o.row.DelaySeconds().value);
    } else {
      MergeIsCommutativeMonoid(Summary(before), None, None);
      assert before + [] == before;
    }
  }

  lemma Exchange(a: Option<Aggregate>, b: Option<Aggregate>, c: Option<Aggregate>, d: Option<Aggregate>)
    ensures Merge(Merge(a, b), Merge(c, d)) == Merge(Merge(a, c), Merge(b, d))
  {
  }

  lemma PartOverDays(o: Observation, p: int -> bool, q: int -> bool, both: int -> bool, cell: Cell)
    requires both(o.serviceDate) <==> p(o.serviceDate) || q(o.serviceDate)
    requires !(p(o.serviceDate) && q(o.serviceDate))
    ensures Part(o, both, cell) == Merge(Part(o, p, cell), Part(o, q, cell))
  {
    hide Summary, IsSelected;
  }

  // The aggregate over a disjoint union of days merges the aggregates.
  lemma {:induction false} DirectOverDays(table: seq<Observation>, p: int -> bool, q: int -> bool, both: int -> bool,
                                          cell: Cell)
    requires forall d :: both(d) <==> p(d) || q(d)
    requires forall d :: !(p(d) && q(d))
    ensures Direct(table, both, cell) == Merge(Direct(table, p, cell), Direct(table, q, cell))
  {
    if table != [] {
      var n := |table| - 1;
      var o := table[n];
      DirectOverDays(table[..n], p, q, both, cell);
      PartOverDays(o, p, q, both, cell);
      hide Merge, Direct, Part;
      assert table == table[..n] + [o];
      DirectStep(table[..n], o, p, cell);
      DirectStep(table[..n], o, q, cell);
      DirectStep(table[..n], o, both, cell);
      Exchange(Direct(table[..n], p, cell), Direct(table[..n], q, cell), Part(o, p, cell), Part(o, q, cell));
    }
  }

  // Only the days rows have matter.
  lemma {:induction false} DirectSameDays(table: seq<Observation>, p: int -> bool, q: int -> bool, cell: Cell)
    requires forall o | o in table && IsSelected(o.row) && CellOf(o.row) == cell :: p(o.serviceDate) == q(o.serviceDate)
    ensures Delays(table, p, cell) == Delays(table, q, cell)
  {
    if table != [] {
      hide IsSelected;
      var n := |table| - 1;
      assert table == table[..n] + [table[n]] && table[n] in table;
      DirectSameDays(table[..n], p, q, cell);
    }
  }

  // A table and the same rows in two parts.
  lemma {:induction false} DirectOfConcat(a: seq<Observation>, b: seq<Observation>, days: int -> bool, cell: Cell)
    ensures Direct(a + b, days, cell) == Merge(Direct(a, days, cell), Direct(b, days, cell))
  {
    hide Merge, Part;
    if b == [] {
      assert a + b == a;
      MergeIsCommutativeMonoid(Direct(a, days, cell), None, None);
    } else {
      hide Direct;
      var n := |b| - 1;
      assert a + b == (a + b[..n]) + [b[n]] && b == b[..n] + [b[n]];
      DirectOfConcat(a, b[..n], days, cell);
      DirectStep(a + b[..n], b[n], days, cell);
      DirectStep(b[..n], b[n], days, cell);
      MergeIsCommutativeMonoid(Direct(a, days, cell), Direct(b[..n], days, cell), Part(b[n], days, cell));
    }
  }

  // -- The figures, in milliseconds ------------------------------------------------------

  function Lateness(row: StoredRow): int
    requires row.scheduledArrivalMs.Some?
  {
    row.observedArrivalMs - row.scheduledArrivalMs.value
  }

  // An exactly scheduled, unskipped stop of the cell, less than two hours early or
  // late once rounded to seconds.
  predicate InCell(o: Observation, days: int -> bool, cell: Cell) {
    && days(o.serviceDate)
    && o.row.stopId == cell.stopId && o.row.routeId == cell.routeId
    && o.row.scheduledHourLocal == Some(cell.hour) && o.row.dayType == Some(cell.dayType)
    && o.row.scheduledSource == 1 && o.row.scheduleRelationship == 0
    && o.row.scheduledArrivalMs.Some? && -7_199_500 < Lateness(o.row) < 7_199_500
  }

  // How many of them were between so much and so much late, in all how late, and
  // whether one was.
  function CountLate(table: seq<Observation>, days: int -> bool, cell: Cell, least: int, most: int): nat {
    if table == [] then 0
    else
      var (n, o) := (|table| - 1, table[|table| - 1]);
      CountLate(table[..n], days, cell, least, most)
      + if InCell(o, days, cell) && least <= Lateness(o.row) <= most then 1 else 0
  }

  function TotalLateness(table: seq<Observation>, days: int -> bool, cell: Cell): int {
    if table == [] then 0
    else
      var (n, o) := (|table| - 1, table[|table| - 1]);
      TotalLateness(table[..n], days, cell) + if InCell(o, days, cell) then Lateness(o.row) else 0
  }

  ghost predicate SomeLate(table: seq<Observation>, days: int -> bool, cell: Cell, least: int, most: int) {
    exists o | o in table :: InCell(o, days, cell) && least <= Lateness(o.row) <= most
  }

  // What a row of figures says of the rows it sums up. Four minutes late begins at
  // 239.5 seconds, five at 299.5, and a minute early at 59.5; the sum, the least
  // and the greatest delay are right to half a second a row.
  ghost predicate AreFiguresOf(table: seq<Observation>, days: int -> bool, cell: Cell, found: Option<Aggregate>) {
    match found
    case None => CountLate(table, days, cell, -7_200_000, 7_200_000) == 0
    case Some(a) =>
      && a.n == CountLate(table, days, cell, -7_200_000, 7_200_000) > 0
      && a.nLate240 == CountLate(table, days, cell, 239_500, 7_200_000)
      && a.nLate300 == CountLate(table, days, cell, 299_500, 7_200_000)
      && a.nEarly60 == CountLate(table, days, cell, -7_200_000, -59_500)
      && -500 * a.n <= 1000 * a.sumDelay - TotalLateness(table, days, cell) <= 500 * a.n
      && SomeLate(table, days, cell, 1000 * a.minDelay - 500, 1000 * a.minDelay + 500)
      && SomeLate(table, days, cell, 1000 * a.maxDelay - 500, 1000 * a.maxDelay + 500)
      && forall o | o in table && InCell(o, days, cell) ::
           1000 * a.minDelay - 500 <= Lateness(o.row) <= 1000 * a.maxDelay + 500
  }

  // Rounding to seconds, as the thresholds see it.
  lemma RoundedDelay(row: StoredRow)
    requires row.scheduledArrivalMs.Some?
    ensures row.DelaySeconds().Some?
    ensures var (late, d) := (Lateness(row), row.DelaySeconds().value);
            && -500 <= 1000 * d - late <= 500
            && (d >= 240 <==> late >= 239_500) && (d >= 300 <==> late >= 299_500)
            && (d <= -60 <==> late <= -59_500) && (-7200 < d < 7200 <==> -7_199_500 < late < 7_199_500)
  {
  }

  lemma SelectedIsInCell(o: Observation, days: int -> bool, cell: Cell)
    ensures IsSelected(o.row) && CellOf(o.row) == cell && days(o.serviceDate) <==> InCell(o, days, cell)
  {
    if o.row.scheduledArrivalMs.Some? {
      RoundedDelay(o.row);
    }
  }

  lemma InCellIsScheduled(o: Observation, days: int -> bool, cell: Cell)
    requires InCell(o, days, cell)
    ensures o.row.scheduledArrivalMs.Some? && o.row.DelaySeconds().Some?
  {
  }

  lemma FiguresStay(table: seq<Observation>, o: Observation, days: int -> bool, cell: Cell, found: Option<Aggregate>)
    requires AreFiguresOf(table, days, cell, found) && !InCell(o, days, cell)
    ensures AreFiguresOf(table + [o], days, cell, found)
  {
    hide InCell, Lateness;
    assert (table + [o])[..|table|] == table;
  }

  lemma {:induction false} NobodyInCell(table: seq<Observation>, days: int -> bool, cell: Cell)
    ensures CountLate(table, days, cell, -7_200_000, 7_200_000) == 0 ==> forall o | o in table :: !InCell(o, days, cell)
    ensures CountLate(table, days, cell, -7_200_000, 7_200_000) == 0 ==>
              CountLate(table, days, cell, 239_500, 7_200_000) == CountLate(table, days, cell, 299_500, 7_200_000) ==
              CountLate(table, days, cell, -7_200_000, -59_500) == TotalLateness(table, days, cell) == 0
  {
    if table != [] {
      var n := |table| - 1;
      assert table == table[..n] + [table[n]];
      NobodyInCell(table[..n], days, cell);
    }
  }

  lemma FiguresGrow(table: seq<Observation>, o: Observation, days: int -> bool, cell: Cell, found: Option<Aggregate>)
    requires AreFiguresOf(table, days, cell, found) && InCell(o, days, cell) && o.row.DelaySeconds().Some?
    ensures var d := o.row.DelaySeconds().value;
            AreFiguresOf(table + [o], days, cell,
                         Merge(found, Some(Aggregate(1, d, d * d, d, d, if d >= 240 then 1 else 0,
                                                     if d >= 300 then 1 else 0, if d <= -60 then 1 else 0))))
  {
    var all := table + [o];
    assert all[..|table|] == table && o in all;
    RoundedDelay(o.row);
    if found.None? {
      NobodyInCell(table, days, cell);
    }
    assert forall p | p in all :: p in table || p == o;
  }

  lemma {:induction false} DirectInMilliseconds(table: seq<Observation>, days: int -> bool, cell: Cell)
    ensures AreFiguresOf(table, days, cell, Direct(table, days, cell))
  {
    if table == [] {
      assert Direct([], days, cell) == None;
    } else {
      hide Direct, AreFiguresOf, InCell, IsSelected, CellOf, Summary;
      var (n, o) := (|table| - 1, table[|table| - 1]);
      assert table == table[..n] + [o];
      DirectInMilliseconds(table[..n], days, cell);
      DirectStep(table[..n], o, days, cell);
      SelectedIsInCell(o, days, cell);
      if InCell(o, days, cell) {
        InCellIsScheduled(o, days, cell);
        SummaryOfOne(o.row.DelaySeconds().value);
        FiguresGrow(table[..n], o, days, cell, Direct(table[..n], days, cell));
      } else {
        MergeIsCommutativeMonoid(Direct(table[..n], days, cell), None, None);
        FiguresStay(table[..n], o, days, cell, Direct(table[..n], days, cell));
      }
    }
  }

  // -- build_rollup_daily ------------------------------------------------------------------

  datatype DayRow = DayRow(serviceDate: int, cell: Cell, aggregate: Aggregate)

  function Only(date: int): int -> bool {
    d => d == date
  }

  function OneEach(table: seq<Observation>, date: int): Groups {
    if table == [] then []
    else
      var n := |table| - 1;
      var o := table[n];
      OneEach(table[..n], date)
      + if o.serviceDate == date && IsSelected(o.row)
        then [(CellOf(o.row), Summary([o.row.DelaySeconds().value]).value)]
        else []
  }

  lemma TotalSnoc(rows: Groups, row: (Cell, Aggregate), cell: Cell)
    ensures Total(rows + [row], cell) == Merge(Total(rows, cell), if row.0 == cell then Some(row.1) else None)
  {
    hide Merge;
    assert (rows + [row])[..|rows|] == rows;
  }

  lemma NothingTotals(table: seq<Observation>, date: int, cell: Cell)
    requires table == []
    ensures Total(OneEach(table, date), cell) == None == Direct(table, Only(date), cell)
  {
  }

  lemma {:induction false} OneEachTotals(table: seq<Observation>, date: int, cell: Cell)
    ensures Total(OneEach(table, date), cell) == Direct(table, Only(date), cell)
  {
    hide Summary, Merge, Total, Delays, CellOf;
    if table == [] {
      NothingTotals(table, date, cell);
    } else {
      var n := |table| - 1;
      var o := table[n];
      var before := OneEach(table[..n], date);
      OneEachTotals(table[..n], date, cell);
      DirectStep(table[..n], o, Only(date), cell);
      assert table == table[..n] + [o];
      hide Direct;
      if o.serviceDate == date && IsSelected(o.row) {
        SummaryOfOne(o.row.DelaySeconds().value);
        TotalSnoc(before, (CellOf(o.row), Summary([o.row.DelaySeconds().value]).value), cell);
      } else {
        MergeIsCommutativeMonoid(Total(before, cell), None, None);
        assert before + [] == before;
      }
    }
  }

  function Tagged(date: int, groups: Groups): seq<DayRow> {
    if groups == [] then []
    else
      var n := |groups| - 1;
      Tagged(date, groups[..n]) + [DayRow(date, groups[n].0, groups[n].1)]
  }

  function WithoutDay(rollup: seq<DayRow>, date: int): seq<DayRow> {
    if rollup == [] then []
    else
      var n := |rollup| - 1;
      WithoutDay(rollup[..n], date) + if rollup[n].serviceDate == date then [] else [rollup[n]]
  }

  // The primary key of rollup_daily.
  ghost predicate DayKeysDistinct(rollup: seq<DayRow>) {
    forall i, j | 0 <= i < j < |rollup| ::
      !(rollup[i].serviceDate == rollup[j].serviceDate && rollup[i].cell == rollup[j].cell)
  }

  function FindDay(rollup: seq<DayRow>, date: int, cell: Cell): Option<Aggregate> {
    if rollup == [] then None
    else
      var n := |rollup| - 1;
      if rollup[n].serviceDate == date && rollup[n].cell == cell then Some(rollup[n].aggregate)
      else FindDay(rollup[..n], date, cell)
  }

  lemma {:induction false} FindDayOfConcat(a: seq<DayRow>, b: seq<DayRow>, date: int, cell: Cell)
    ensures FindDay(a + b, date, cell) ==
            if FindDay(b, date, cell).Some? then FindDay(b, date, cell) else FindDay(a, date, cell)
  {
    if b == [] {
      assert a + b == a;
    } else {
      var n := |b| - 1;
      assert (a + b)[..|a + b| - 1] == a + b[..n];
      FindDayOfConcat(a, b[..n], date, cell);
    }
  }

  lemma {:induction false} TaggedFinds(date: int, groups: Groups, day: int, cell: Cell)
    ensures FindDay(Tagged(date, groups), day, cell) == if day == date then Find(groups, cell) else None
  {
    if groups != [] {
      var n := |groups| - 1;
      TaggedFinds(date, groups[..n], day, cell);
      var tagged := Tagged(date, groups);
      assert tagged[..|tagged| - 1] == Tagged(date, groups[..n]);
    }
  }

  lemma {:induction false} TaggedRows(date: int, groups: Groups)
    ensures |Tagged(date, groups)| == |groups|
    ensures forall i | 0 <= i < |groups| :: Tagged(date, groups)[i] == DayRow(date, groups[i].0, groups[i].1)
  {
    if groups != [] {
      TaggedRows(date, groups[..|groups| - 1]);
    }
  }

  lemma {:induction false} WithoutDayFinds(rollup: seq<DayRow>, date: int, day: int, cell: Cell)
    ensures FindDay(WithoutDay(rollup, date), day, cell) == if day == date then None else FindDay(rollup, day, cell)
  {
    if rollup != [] {
      var n := |rollup| - 1;
      WithoutDayFinds(rollup[..n], date, day, cell);
      var kept := WithoutDay(rollup, date);
      if rollup[n].serviceDate != date {
        assert kept[..|kept| - 1] == WithoutDay(rollup[..n], date);
      } else {
        assert kept == WithoutDay(rollup[..n], date);
      }
    }
  }

  lemma {:induction false} WithoutDayKeys(rollup: seq<DayRow>, date: int)
    requires DayKeysDistinct(rollup)
    ensures DayKeysDistinct(WithoutDay(rollup, date))
    ensures forall r :: r in WithoutDay(rollup, date) <==> r in rollup && r.serviceDate != date
  {
    if rollup != [] {
      var n := |rollup| - 1;
      assert rollup == rollup[..n] + [rollup[n]];
      WithoutDayKeys(rollup[..n], date);
      forall r | r in WithoutDay(rollup[..n], date)
        ensures !(r.serviceDate == rollup[n].serviceDate && r.cell == rollup[n].cell)
      {
        var i :| 0 <= i < n && rollup[..n][i] == r;
        assert rollup[i] == r;
      }
    }
  }

  // A day is fresh when its rollup rows are the aggregates of its raw rows.
  ghost predicate Fresh(table: seq<Observation>, rollup: seq<DayRow>, date: int) {
    forall cell :: FindDay(rollup, date, cell) == Direct(table, Only(date), cell)
  }

  function RolledUp(table: seq<Observation>, rollup: seq<DayRow>, date: int): seq<DayRow> {
    WithoutDay(rollup, date) + Tagged(date, GroupBy(OneEach(table, date)))
  }

  lemma AddedKeys(table: seq<Observation>, kept: seq<DayRow>, date: int)
    requires DayKeysDistinct(kept) && forall r | r in kept :: r.serviceDate != date
    ensures DayKeysDistinct(kept + Tagged(date, GroupBy(OneEach(table, date))))
  {
    hide GroupBy, OneEach, Tagged;
    var groups := GroupBy(OneEach(table, date));
    GroupByTotals(OneEach(table, date), Cell("", "", 0, 0));
    TaggedRows(date, groups);
    var all := kept + Tagged(date, groups);
    forall i, j | 0 <= i < j < |all|
      ensures !(all[i].serviceDate == all[j].serviceDate && all[i].cell == all[j].cell)
    {
      if i < |kept| && j >= |kept| {
        assert all[i] in kept;
      }
    }
  }

  lemma RolledUpIsFresh(table: seq<Observation>, rollup: seq<DayRow>, date: int)
    requires DayKeysDistinct(rollup)
    ensures DayKeysDistinct(RolledUp(table, rollup, date))
    ensures Fresh(table, RolledUp(table, rollup, date), date)
    ensures forall day, cell | day != date ::
              FindDay(RolledUp(table, rollup, date), day, cell) == FindDay(rollup, day, cell)
  {
    hide Direct, GroupBy, OneEach, Total, WithoutDay, Tagged, FindDay, Find;
    var kept, groups := WithoutDay(rollup, date), GroupBy(OneEach(table, date));
    var added := Tagged(date, groups);
    forall day, cell
      ensures FindDay(kept + added, day, cell) ==
              if day == date then Direct(table, Only(date), cell) else FindDay(rollup, day, cell)
    {
      GroupByTotals(OneEach(table, date), cell);
      OneEachTotals(table, date, cell);
      TaggedFinds(date, groups, day, cell);
      WithoutDayFinds(rollup, date, day, cell);
      FindDayOfConcat(kept, added, day, cell);
    }
    WithoutDayKeys(rollup, date);
    AddedKeys(table, kept, date);
  }

  // -- build_stop_route_hour_stats -------------------------------------------------------

  function Windowed(rollup: seq<DayRow>, days: int -> bool): Groups {
    if rollup == [] then []
    else
      var n := |rollup| - 1;
      Windowed(rollup[..n], days) + if days(rollup[n].serviceDate) then [(rollup[n].cell, rollup[n].aggregate)] else []
  }

  // 1900-01-01, as a day number.
  const ALL_HISTORY: int := -25567

  function Cutoff(today: int, windowDays: Option<int>): int {
    if windowDays.None? then ALL_HISTORY else today - windowDays.value
  }

  // On or after the cutoff, and not a day with a diagnosed gap.
  function InWindow(cutoff: int, gaps: set<int>): int -> bool {
    d => d >= cutoff && d !in gaps
  }

  function Stats(rollup: seq<DayRow>, cutoff: int, gaps: set<int>): Groups {
    GroupBy(Windowed(rollup, InWindow(cutoff, gaps)))
  }

  // The days on which a cell has a daily row.
  ghost function CellDays(rollup: seq<DayRow>, cell: Cell): set<int> {
    set r | r in rollup && r.cell == cell :: r.serviceDate
  }

  // One more daily row, in the second stage.
  lemma StageStep(rows: seq<DayRow>, r: DayRow, days: int -> bool, cell: Cell)
    ensures Total(Windowed(rows + [r], days), cell) ==
            Merge(Total(Windowed(rows, days), cell),
                  if days(r.serviceDate) && r.cell == cell then Some(r.aggregate) else None)
  {
    hide Merge;
    var all := Windowed(rows + [r], days);
    assert (rows + [r])[..|rows|] == rows;
    MergeIsCommutativeMonoid(Total(Windowed(rows, days), cell), None, None);
    if days(r.serviceDate) {
      assert all[..|all| - 1] == Windowed(rows, days);
    } else {
      assert all == Windowed(rows, days);
    }
  }

  lemma CellDaysStep(rows: seq<DayRow>, r: DayRow, cell: Cell)
    requires DayKeysDistinct(rows + [r])
    ensures CellDays(rows + [r], cell) == CellDays(rows, cell) + if r.cell == cell then {r.serviceDate} else {}
    ensures r.cell == cell ==> r.serviceDate !in CellDays(rows, cell)
  {
    var all := rows + [r];
    assert all[|rows|] == r && r in all;
    forall other | other in rows
      ensures other in all && !(other.serviceDate == r.serviceDate && other.cell == r.cell)
    {
      var i :| 0 <= i < |rows| && rows[i] == other;
      assert all[i] == other;
    }
  }

  lemma DirectSame(table: seq<Observation>, p: int -> bool, q: int -> bool, cell: Cell)
    requires forall d :: p(d) == q(d)
    ensures Direct(table, p, cell) == Direct(table, q, cell)
  {
    hide IsSelected;
    DirectSameDays(table, p, q, cell);
  }

  // One more daily row, directly.
  lemma StageLast(table: seq<Observation>, rows: seq<DayRow>, r: DayRow, days: int -> bool, cell: Cell)
    requires DayKeysDistinct(rows + [r])
    requires days(r.serviceDate) && r.cell == cell ==> Some(r.aggregate) == Direct(table, Only(r.serviceDate), cell)
    ensures Direct(table, d => days(d) && d in CellDays(rows + [r], cell), cell) ==
            Merge(Direct(table, d => days(d) && d in CellDays(rows, cell), cell),
                  if days(r.serviceDate) && r.cell == cell then Some(r.aggregate) else None)
  {
    hide Merge, Direct, Delays;
    var before: int -> bool := d => days(d) && d in CellDays(rows, cell);
    var after: int -> bool := d => days(d) && d in CellDays(rows + [r], cell);
    MergeIsCommutativeMonoid(Direct(table, before, cell), None, None);
    CellDaysStep(rows, r, cell);
    if days(r.serviceDate) && r.cell == cell {
      DirectOverDays(table, before, Only(r.serviceDate), after, cell);
    } else {
      DirectSame(table, after, before, cell);
    }
  }

  lemma {:induction false} NoDays(table: seq<Observation>, days: int -> bool, cell: Cell)
    requires forall o | o in table && IsSelected(o.row) && CellOf(o.row) == cell :: !days(o.serviceDate)
    ensures Delays(table, days, cell) == []
  {
    if table != [] {
      hide IsSelected;
      assert table == table[..|table| - 1] + [table[|table| - 1]] && table[|table| - 1] in table;
      NoDays(table[..|table| - 1], days, cell);
    }
  }

  lemma {:induction false} StagesAgree(table: seq<Observation>, rows: seq<DayRow>, days: int -> bool, cell: Cell)
    requires DayKeysDistinct(rows)
    requires forall r | r in rows && days(r.serviceDate) && r.cell == cell ::
               Some(r.aggregate) == Direct(table, Only(r.serviceDate), cell)
    ensures Total(Windowed(rows, days), cell) == Direct(table, d => days(d) && d in CellDays(rows, cell), cell)
  {
    if rows == [] {
      assert forall d :: d !in CellDays(rows, cell);
      NoDays(table, d => days(d) && d in CellDays(rows, cell), cell);
    } else {
      var n := |rows| - 1;
      var r := rows[n];
      assert rows == rows[..n] + [r];
      StagesAgree(table, rows[..n], days, cell);
      StageStep(rows[..n], r, days, cell);
      StageLast(table, rows[..n], r, days, cell);
    }
  }

  lemma {:induction false} SomeDay(table: seq<Observation>, days: int -> bool, cell: Cell, o: Observation)
    requires o in table && IsSelected(o.row) && CellOf(o.row) == cell && days(o.serviceDate)
    ensures Delays(table, days, cell) != []
  {
    hide IsSelected;
    var n := |table| - 1;
    assert table == table[..n] + [table[n]];
    if o in table[..n] {
      SomeDay(table[..n], days, cell, o);
    }
  }

  lemma {:induction false} FindDayIsRow(rollup: seq<DayRow>, r: DayRow)
    requires DayKeysDistinct(rollup) && r in rollup
    ensures FindDay(rollup, r.serviceDate, r.cell) == Some(r.aggregate)
  {
    var n := |rollup| - 1;
    assert rollup == rollup[..n] + [rollup[n]];
    var i :| 0 <= i < |rollup| && rollup[i] == r;
    if i < n {
      assert rollup[..n][i] == r;
      FindDayIsRow(rollup[..n], r);
    }
  }

  lemma {:induction false} FoundDayIsRow(rollup: seq<DayRow>, date: int, cell: Cell)
    requires FindDay(rollup, date, cell).Some?
    ensures DayRow(date, cell, FindDay(rollup, date, cell).value) in rollup
  {
    var n := |rollup| - 1;
    assert rollup == rollup[..n] + [rollup[n]];
    if !(rollup[n].serviceDate == date && rollup[n].cell == cell) {
      FoundDayIsRow(rollup[..n], date, cell);
    }
  }

  lemma HasSummary(table: seq<Observation>, days: int -> bool, cell: Cell)
    requires Delays(table, days, cell) != []
    ensures Direct(table, days, cell).Some?
  {
  }

  lemma DirectOfSameDays(table: seq<Observation>, p: int -> bool, q: int -> bool, cell: Cell)
    requires forall o | o in table && IsSelected(o.row) && CellOf(o.row) == cell :: p(o.serviceDate) == q(o.serviceDate)
    ensures Direct(table, p, cell) == Direct(table, q, cell)
  {
    hide IsSelected;
    DirectSameDays(table, p, q, cell);
  }

  // Two stages are one: if every day of the window is fresh, each serving cell is
  // the aggregate of the window's raw rows, and there is one cell for each group
  // those rows have.
  lemma TwoStagesAreOne(table: seq<Observation>, rollup: seq<DayRow>, cutoff: int, gaps: set<int>, cell: Cell)
    requires DayKeysDistinct(rollup)
    requires forall date | InWindow(cutoff, gaps)(date) :: Fresh(table, rollup, date)
    ensures Find(Stats(rollup, cutoff, gaps), cell) == Direct(table, InWindow(cutoff, gaps), cell)
    ensures KeysDistinct(Stats(rollup, cutoff, gaps))
  {
    hide Direct, Delays, FindDay, GroupBy, Windowed, Find, Total, IsSelected, DayKeysDistinct, KeysDistinct;
    var days := InWindow(cutoff, gaps);
    GroupByTotals(Windowed(rollup, days), cell);
    forall r | r in rollup && days(r.serviceDate) && r.cell == cell
      ensures Some(r.aggregate) == Direct(table, Only(r.serviceDate), cell)
    {
      FindDayIsRow(rollup, r);
      assert Fresh(table, rollup, r.serviceDate);
    }
    StagesAgree(table, rollup, days, cell);
    var rolled: int -> bool := d => days(d) && d in CellDays(rollup, cell);
    forall o | o in table && IsSelected(o.row) && CellOf(o.row) == cell
      ensures rolled(o.serviceDate) == days(o.serviceDate)
    {
      if days(o.serviceDate) {
        assert Fresh(table, rollup, o.serviceDate);
        SomeDay(table, Only(o.serviceDate), cell, o);
        HasSummary(table, Only(o.serviceDate), cell);
        FoundDayIsRow(rollup, o.serviceDate, cell);
      }
    }
    DirectOfSameDays(table, rolled, days, cell);
  }

  lemma {:induction false} OneDayTotal(rollup: seq<DayRow>, days: int -> bool, date: int, cell: Cell)
    requires DayKeysDistinct(rollup) && days(date)
    requires forall r | r in rollup && days(r.serviceDate) :: r.serviceDate == date
    ensures Total(Windowed(rollup, days), cell) == FindDay(rollup, date, cell)
  {
    if rollup != [] {
      var n := |rollup| - 1;
      var r := rollup[n];
      assert rollup == rollup[..n] + [r] && r in rollup;
      OneDayTotal(rollup[..n], days, date, cell);
      StageStep(rollup[..n], r, days, cell);
      hide Merge;
      if days(r.serviceDate) && r.cell == cell {
        if FindDay(rollup[..n], date, cell).Some? {
          FoundDayIsRow(rollup[..n], date, cell);
        }
        MergeIsCommutativeMonoid(Some(r.aggregate), None, None);
      } else {
        MergeIsCommutativeMonoid(FindDay(rollup[..n], date, cell), None, None);
      }
    }
  }

  lemma OneDayStats(table: seq<Observation>, rollup: seq<DayRow>, cutoff: int, gaps: set<int>, date: int, cell: Cell)
    requires DayKeysDistinct(rollup) && date >= cutoff && date !in gaps
    requires forall o | o in table :: o.serviceDate in gaps || o.serviceDate == date
    requires forall r | r in rollup :: r.serviceDate in gaps || r.serviceDate == date
    ensures Find(Stats(rollup, cutoff, gaps), cell) == FindDay(rollup, date, cell)
    ensures Direct(table, InWindow(cutoff, gaps), cell) == Direct(table, Only(date), cell)
  {
    hide Direct, FindDay, GroupBy, Windowed, Find, Total, IsSelected, DayKeysDistinct, KeysDistinct;
    var days := InWindow(cutoff, gaps);
    GroupByTotals(Windowed(rollup, days), cell);
    OneDayTotal(rollup, days, date, cell);
    DirectOfSameDays(table, days, Only(date), cell);
  }

  // ... and only then: whatever days are excluded as gaps, the serving cells are
  // the direct aggregates exactly when every day from the cutoff on is fresh.
  lemma StatsAreDirectExactlyWhen(table: seq<Observation>, rollup: seq<DayRow>, cutoff: int)
    requires DayKeysDistinct(rollup)
    ensures (forall gaps: set<int>, cell ::
               Find(Stats(rollup, cutoff, gaps), cell) == Direct(table, InWindow(cutoff, gaps), cell))
            <==> forall date | date >= cutoff :: Fresh(table, rollup, date)
  {
    hide Direct, FindDay, Stats, Find, DayKeysDistinct, KeysDistinct;
    if forall date | date >= cutoff :: Fresh(table, rollup, date) {
      forall gaps: set<int>, cell
        ensures Find(Stats(rollup, cutoff, gaps), cell) == Direct(table, InWindow(cutoff, gaps), cell)
      {
        TwoStagesAreOne(table, rollup, cutoff, gaps, cell);
      }
    }
    if forall gaps: set<int>, cell ::
         Find(Stats(rollup, cutoff, gaps), cell) == Direct(table, InWindow(cutoff, gaps), cell)
    {
      forall date | date >= cutoff
        ensures Fresh(table, rollup, date)
      {
        var gaps := ((set o | o in table :: o.serviceDate) + set r | r in rollup :: r.serviceDate) - {date};
        forall cell
          ensures FindDay(rollup, date, cell) == Direct(table, Only(date), cell)
        {
          assert Find(Stats(rollup, cutoff, gaps), cell) == Direct(table, InWindow(cutoff, gaps), cell);
          OneDayStats(table, rollup, cutoff, gaps, date, cell);
        }
      }
    }
  }

  lemma NoSummary()
    ensures Summary([]) == None
  {
  }

  // first_service_date, last_service_date and service_days speak of the days the
  // cell was observed on.
  lemma ServiceDaysAreObserved(table: seq<Observation>, rollup: seq<DayRow>, cell: Cell, date: int)
    requires DayKeysDistinct(rollup) && Fresh(table, rollup, date)
    ensures date in CellDays(rollup, cell) <==>
            exists o | o in table :: o.serviceDate == date && IsSelected(o.row) && CellOf(o.row) == cell
  {
    hide IsSelected, CellOf, Summary;
    var only := Only(date);
    if o :| o in table && o.serviceDate == date && IsSelected(o.row) && CellOf(o.row) == cell {
      SomeDay(table, only, cell, o);
      HasSummary(table, only, cell);
      FoundDayIsRow(rollup, date, cell);
    } else {
      NoDays(table, only, cell);
      assert Direct(table, only, cell) == None by { NoSummary(); }
      if r :| r in rollup && r.cell == cell && r.serviceDate == date {
        FindDayIsRow(rollup, r);
      }
    }
  }

  // -- The tables, changed in place ------------------------------------------------------

  lemma {:induction false} SetOfDistinct(rows: seq<DayRow>)
    requires forall i, j | 0 <= i < j < |rows| :: rows[i] != rows[j]
    ensures |set r | r in rows| == |rows|
  {
    if rows != [] {
      var n := |rows| - 1;
      SetOfDistinct(rows[..n]);
      assert rows == rows[..n] + [rows[n]];
      assert (set r | r in rows) == (set r | r in rows[..n]) + {rows[n]};
    }
  }

  lemma CountInserted(table: seq<Observation>, rollup: seq<DayRow>, date: int)
    requires DayKeysDistinct(rollup)
    ensures |Tagged(date, GroupBy(OneEach(table, date)))| ==
            |set r | r in RolledUp(table, rollup, date) && r.serviceDate == date|
  {
    hide GroupBy, OneEach, Tagged, WithoutDay, DayKeysDistinct;
    var kept, groups := WithoutDay(rollup, date), GroupBy(OneEach(table, date));
    var added := Tagged(date, groups);
    WithoutDayKeys(rollup, date);
    GroupByTotals(OneEach(table, date), Cell("", "", 0, 0));
    TaggedRows(date, groups);
    assert (set r | r in RolledUp(table, rollup, date) && r.serviceDate == date) == set r | r in added by {
      assert forall r | r in added :: r.serviceDate == date;
    }
    SetOfDistinct(added);
  }

  lemma FreshDayInMilliseconds(table: seq<Observation>, rollup: seq<DayRow>, date: int)
    requires Fresh(table, rollup, date)
    ensures forall cell :: AreFiguresOf(table, Only(date), cell, FindDay(rollup, date, cell))
  {
    hide AreFiguresOf, Direct, FindDay;
    forall cell
      ensures AreFiguresOf(table, Only(date), cell, FindDay(rollup, date, cell))
    {
      DirectInMilliseconds(table, Only(date), cell);
    }
  }

  // The days whose rows a serving table is built from: with a window of n days,
  // those at most n days before today, and otherwise those from 1900 on.
  lemma WindowDates(today: int, windowDays: Option<int>, gaps: set<int>, date: int)
    ensures InWindow(Cutoff(today, windowDays), gaps)(date) <==>
            date !in gaps && if windowDays.Some? then today - date <= windowDays.value
                             else Calendar.CivilOf(date).year >= 1900
  {
    hide Calendar.CivilOf, Calendar.YearStart;
    Calendar.YearStartIsDayFromYear(1900);
    Calendar.SinceNewYear(date, 1900);
  }

  class Warehouse {
    var observations: seq<Observation>
    var rollupDaily: seq<DayRow>
    var knownGaps: set<int>
    var stats: Groups

    ghost predicate Valid()
      reads this
    {
      DayKeysDistinct(rollupDaily) && KeysDistinct(stats)
    }

    constructor ()
      ensures Valid() && observations == [] && rollupDaily == [] && knownGaps == {} && stats == []
    {
      observations, rollupDaily, knownGaps, stats := [], [], {}, [];
    }

    // build_rollup_daily: the day's rows are the aggregates of its observations,
    // every other day's are untouched, and the number of them is returned.
    method BuildRollupDaily(date: int) returns (rows: nat)
      requires Valid()
      modifies this`rollupDaily
      ensures Valid() && rollupDaily == RolledUp(observations, old(rollupDaily), date)
      ensures Fresh(observations, rollupDaily, date)
      ensures forall cell :: AreFiguresOf(observations, Only(date), cell, FindDay(rollupDaily, date, cell))
      ensures forall day, cell | day != date :: FindDay(rollupDaily, day, cell) == FindDay(old(rollupDaily), day, cell)
      ensures rows == |set r | r in rollupDaily && r.serviceDate == date|
    {
      hide KeysDistinct, DayKeysDistinct, Fresh, FindDay, WithoutDay, Tagged, GroupBy, OneEach, AreFiguresOf;
      RolledUpIsFresh(observations, rollupDaily, date);
      FreshDayInMilliseconds(observations, RolledUp(observations, rollupDaily, date), date);
      CountInserted(observations, rollupDaily, date);
      rollupDaily := WithoutDay(rollupDaily, date);
      var inserted := Tagged(date, GroupBy(OneEach(observations, date)));
      rollupDaily := rollupDaily + inserted;
      rows := |inserted|;
    }

    // build_stop_route_hour_stats: delete and refill, from the daily rows of the
    // window that are not of a day with a known gap.
    method BuildStopRouteHourStats(today: int, windowDays: Option<int>) returns (rows: nat)
      requires Valid()
      modifies this`stats
      ensures Valid() && stats == Stats(rollupDaily, Cutoff(today, windowDays), knownGaps) && rows == |stats|
      ensures (forall date | date >= Cutoff(today, windowDays) && date !in knownGaps ::
                 Fresh(observations, rollupDaily, date)) ==>
                forall cell ::
                  && Find(stats, cell) == Direct(observations, InWindow(Cutoff(today, windowDays), knownGaps), cell)
                  && AreFiguresOf(observations, InWindow(Cutoff(today, windowDays), knownGaps), cell, Find(stats, cell))
    {
      hide KeysDistinct, DayKeysDistinct, Fresh, FindDay, Direct, Find, GroupBy, Windowed, AreFiguresOf;
      var cutoff := Cutoff(today, windowDays);
      var built := GroupBy(Windowed(rollupDaily, InWindow(cutoff, knownGaps)));
      GroupByTotals(Windowed(rollupDaily, InWindow(cutoff, knownGaps)), Cell("", "", 0, 0));
      stats := [];
      assert stats + built == built;
      stats := stats + built;
      rows := |built|;
      if forall date | date >= cutoff && date !in knownGaps :: Fresh(observations, rollupDaily, date) {
        forall cell
          ensures Find(stats, cell) == Direct(observations, InWindow(cutoff, knownGaps), cell)
          ensures AreFiguresOf(observations, InWindow(cutoff, knownGaps), cell, Find(stats, cell))
        {
          TwoStagesAreOne(observations, rollupDaily, cutoff, knownGaps, cell);
          DirectInMilliseconds(observations, InWindow(cutoff, knownGaps), cell);
        }
      }
    }
  }

  // -- Writes, rollups and evictions in any order -------------------------------------------

  // gone holds the rows of dropped partitions. A day is settled when it has been
  // rolled up since it was last written, with none of its countable rows gone.
  datatype History = History(raw: seq<Observation>, gone: seq<Observation>, rollup: seq<DayRow>, settled: set<int>)

  datatype Event =
    | Write(date: int, rows: seq<StoredRow>)
    | RollUp(date: int)
    | Evict(days: set<int>)

  function Where(table: seq<Observation>, days: int -> bool): seq<Observation> {
    if table == [] then []
    else
      var n := |table| - 1;
      Where(table[..n], days) + if days(table[n].serviceDate) then [table[n]] else []
  }

  function Except(date: int): int -> bool {
    d => d != date
  }

  function AmongDays(days: set<int>): int -> bool {
    d => d in days
  }

  function NotAmong(days: set<int>): int -> bool {
    d => d !in days
  }

  function Both(p: int -> bool, q: int -> bool): int -> bool {
    d => p(d) && q(d)
  }

  function Dated(date: int, rows: seq<StoredRow>): seq<Observation> {
    seq(|rows|, i requires 0 <= i < |rows| => Observation(date, rows[i]))
  }

  ghost predicate NothingGone(gone: seq<Observation>, date: int) {
    forall o | o in gone && o.serviceDate == date :: !IsSelected(o.row)
  }

  // Writing a day leaves it with any rows at all; other days keep theirs.
  ghost function Step(h: History, event: Event): History {
    match event
    case Write(date, rows) =>
      h.(raw := Where(h.raw, Except(date)) + Dated(date, rows), settled := h.settled - {date})
    case RollUp(date) =>
      h.(rollup := RolledUp(h.raw, h.rollup, date),
         settled := if NothingGone(h.gone, date) then h.settled + {date} else h.settled - {date})
    case Evict(days) =>
      h.(raw := Where(h.raw, NotAmong(days)), gone := h.gone + Where(h.raw, AmongDays(days)))
  }

  ghost function Run(h: History, events: seq<Event>): History
    decreases |events|
  {
    if events == [] then h else Step(Run(h, events[..|events| - 1]), events[|events| - 1])
  }

  ghost predicate SettledAreFresh(h: History) {
    && DayKeysDistinct(h.rollup)
    && forall date | date in h.settled :: Fresh(h.gone + h.raw, h.rollup, date)
  }

  // A filter, aggregated.
  lemma {:induction false} WhereDirect(table: seq<Observation>, keep: int -> bool, days: int -> bool, cell: Cell)
    ensures Delays(Where(table, keep), days, cell) == Delays(table, Both(keep, days), cell)
  {
    if table != [] {
      hide IsSelected, CellOf;
      var n := |table| - 1;
      WhereDirect(table[..n], keep, days, cell);
      var kept := Where(table, keep);
      if keep(table[n].serviceDate) {
        assert kept[..|kept| - 1] == Where(table[..n], keep);
      } else {
        assert kept == Where(table[..n], keep);
      }
    }
  }

  lemma WriteKeepsOtherDays(h: History, date: int, rows: seq<StoredRow>, day: int, cell: Cell)
    requires day != date
    ensures var raw := Where(h.raw, Except(date)) + Dated(date, rows);
            Direct(h.gone + raw, Only(day), cell) == Direct(h.gone + h.raw, Only(day), cell)
  {
    var rest, added := Where(h.raw, Except(date)), Dated(date, rows);
    var only := Only(day);
    DirectOfConcat(h.gone, h.raw, only, cell);
    DirectOfConcat(h.gone, rest + added, only, cell);
    DirectOfConcat(rest, added, only, cell);
    WhereDirect(h.raw, Except(date), only, cell);
    DirectSameDays(h.raw, Both(Except(date), only), only, cell);
    NoDays(added, only, cell);
    NoSummary();
    hide Summary, Merge, Delays, Where, Dated;
    MergeIsCommutativeMonoid(Direct(rest, only, cell), None, None);
  }

  lemma EvictionKeepsHistory(h: History, days: set<int>, day: int, cell: Cell)
    ensures var raw, gone := Where(h.raw, NotAmong(days)), h.gone + Where(h.raw, AmongDays(days));
            Direct(gone + raw, Only(day), cell) == Direct(h.gone + h.raw, Only(day), cell)
  {
    var kept, dropped := Where(h.raw, NotAmong(days)), Where(h.raw, AmongDays(days));
    var only := Only(day);
    DirectOfConcat(h.gone + dropped, kept, only, cell);
    DirectOfConcat(h.gone, dropped, only, cell);
    DirectOfConcat(h.gone, h.raw, only, cell);
    WhereDirect(h.raw, NotAmong(days), only, cell);
    WhereDirect(h.raw, AmongDays(days), only, cell);
    DirectOverDays(h.raw, Both(AmongDays(days), only), Both(NotAmong(days), only), only, cell);
    hide Summary, Merge, Delays, Where;
    MergeIsCommutativeMonoid(Direct(h.gone, only, cell), Direct(dropped, only, cell), Direct(kept, only, cell));
  }

  lemma DirectOfNone(table: seq<Observation>, date: int, cell: Cell)
    requires NothingGone(table, date)
    ensures Direct(table, Only(date), cell) == None
  {
    hide IsSelected;
    NoDays(table, Only(date), cell);
    NoSummary();
  }

  lemma DirectCounts(table: seq<Observation>, days: int -> bool, cell: Cell)
    requires Delays(table, days, cell) != []
    ensures Direct(table, days, cell).Some? && Direct(table, days, cell).value.n > 0
  {
  }

  lemma MergeGrows(a: Option<Aggregate>, b: Option<Aggregate>)
    requires a.Some? && a.value.n > 0
    ensures Merge(a, b) != b
  {
  }

  // Rolling a day up makes its rows those of its whole history exactly when no
  // countable row of it has been dropped; otherwise it erases what they counted.
  lemma RollUpIsFreshExactlyWhen(h: History, date: int)
    requires DayKeysDistinct(h.rollup)
    ensures Fresh(h.gone + h.raw, RolledUp(h.raw, h.rollup, date), date) <==> NothingGone(h.gone, date)
  {
    hide DayKeysDistinct, RolledUp, FindDay, IsSelected, Direct, CellOf;
    RolledUpIsFresh(h.raw, h.rollup, date);
    var rollup := RolledUp(h.raw, h.rollup, date);
    if NothingGone(h.gone, date) {
      forall cell
        ensures FindDay(rollup, date, cell) == Direct(h.gone + h.raw, Only(date), cell)
      {
        DirectOfConcat(h.gone, h.raw, Only(date), cell);
        DirectOfNone(h.gone, date, cell);
        MergeIsCommutativeMonoid(Direct(h.raw, Only(date), cell), None, None);
      }
    } else {
      var o :| o in h.gone && o.serviceDate == date && IsSelected(o.row);
      var cell := CellOf(o.row);
      SomeDay(h.gone, Only(date), cell, o);
      DirectOfConcat(h.gone, h.raw, Only(date), cell);
      DirectCounts(h.gone, Only(date), cell);
      MergeGrows(Direct(h.gone, Only(date), cell), Direct(h.raw, Only(date), cell));
      assert FindDay(rollup, date, cell) != Direct(h.gone + h.raw, Only(date), cell);
    }
  }

  lemma StepKeepsSettled(h: History, event: Event)
    requires SettledAreFresh(h)
    ensures SettledAreFresh(Step(h, event))
  {
    hide DayKeysDistinct, FindDay, Direct, Where, Dated, RolledUp, NothingGone;
    var next := Step(h, event);
    match event
    case Write(date, rows) =>
      forall day, cell | day in next.settled
        ensures FindDay(next.rollup, day, cell) == Direct(next.gone + next.raw, Only(day), cell)
      {
        assert Fresh(h.gone + h.raw, h.rollup, day);
        WriteKeepsOtherDays(h, date, rows, day, cell);
      }
    case RollUp(date) =>
      RolledUpIsFresh(h.raw, h.rollup, date);
      RollUpIsFreshExactlyWhen(h, date);
      forall day | day in next.settled
        ensures Fresh(next.gone + next.raw, next.rollup, day)
      {
        if day != date {
          assert Fresh(h.gone + h.raw, h.rollup, day);
        }
      }
    case Evict(days) =>
      forall day, cell | day in next.settled
        ensures FindDay(next.rollup, day, cell) == Direct(next.gone + next.raw, Only(day), cell)
      {
        assert Fresh(h.gone + h.raw, h.rollup, day);
        EvictionKeepsHistory(h, days, day, cell);
      }
  }

  lemma {:induction false} RunKeepsSettled(h: History, events: seq<Event>)
    requires SettledAreFresh(h)
    ensures SettledAreFresh(Run(h, events))
    decreases |events|
  {
    if events != [] {
      hide SettledAreFresh, Step;
      RunKeepsSettled(h, events[..|events| - 1]);
      StepKeepsSettled(Run(h, events[..|events| - 1]), events[|events| - 1]);
    }
  }

  const NO_HISTORY: History := History([], [], [], {})

  lemma EmptyKeys()
    ensures DayKeysDistinct([])
  {
  }

  lemma EmptyDayIsFresh(table: seq<Observation>, rollup: seq<DayRow>, date: int)
    requires (forall o | o in table :: o.serviceDate != date) && (forall r | r in rollup :: r.serviceDate != date)
    ensures Fresh(table, rollup, date)
  {
    hide IsSelected, Summary, FindDay;
    NoSummary();
    forall cell
      ensures FindDay(rollup, date, cell) == Direct(table, Only(date), cell)
    {
      NoDays(table, Only(date), cell);
      if FindDay(rollup, date, cell).Some? {
        FoundDayIsRow(rollup, date, cell);
      }
    }
  }

  // After any sequence of writes, rollups and evictions, if every windowed day
  // that has rows was settled, each serving cell is the aggregate of all the
  // window's observations, the evicted ones included.
  lemma ServingCellsAreDirect(events: seq<Event>, cutoff: int, gaps: set<int>, cell: Cell)
    requires var h := Run(NO_HISTORY, events);
             && (forall o | o in h.gone + h.raw && InWindow(cutoff, gaps)(o.serviceDate) :: o.serviceDate in h.settled)
             && (forall r | r in h.rollup && InWindow(cutoff, gaps)(r.serviceDate) :: r.serviceDate in h.settled)
    ensures var h := Run(NO_HISTORY, events);
            Find(Stats(h.rollup, cutoff, gaps), cell) == Direct(h.gone + h.raw, InWindow(cutoff, gaps), cell)
  {
    hide DayKeysDistinct, FindDay, Direct, Stats, Find, Run, Fresh;
    var h := Run(NO_HISTORY, events);
    assert SettledAreFresh(NO_HISTORY) by { assert DayKeysDistinct([]) by { EmptyKeys(); } }
    RunKeepsSettled(NO_HISTORY, events);
    forall date | InWindow(cutoff, gaps)(date)
      ensures Fresh(h.gone + h.raw, h.rollup, date)
    {
      if date !in h.settled {
        EmptyDayIsFresh(h.gone + h.raw, h.rollup, date);
      }
    }
    TwoStagesAreOne(h.gone + h.raw, h.rollup, cutoff, gaps, cell);
  }

  // -- The guard on dropping raw rows ---------------------------------------------------------

  ghost predicate InRollup(rollup: seq<DayRow>, date: int) {
    exists r | r in rollup :: r.serviceDate == date
  }

  // A day that has just been rolled up satisfies the guard exactly when it has a
  // countable row: a day whose rows are all unmatched keeps its partition however
  // often it is rolled up.
  lemma GuardPassesExactlyWhen(table: seq<Observation>, rollup: seq<DayRow>, date: int)
    requires DayKeysDistinct(rollup)
    ensures InRollup(RolledUp(table, rollup, date), date) <==>
            exists o | o in table :: o.serviceDate == date && IsSelected(o.row)
  {
    hide DayKeysDistinct, RolledUp, FindDay, IsSelected, Direct, CellOf, Delays;
    RolledUpIsFresh(table, rollup, date);
    var after := RolledUp(table, rollup, date);
    if r :| r in after && r.serviceDate == date {
      ServiceDaysAreObserved(table, after, r.cell, date);
      assert date in CellDays(after, r.cell);
    }
    if o :| o in table && o.serviceDate == date && IsSelected(o.row) {
      ServiceDaysAreObserved(table, after, CellOf(o.row), date);
      assert date in CellDays(after, CellOf(o.row));
    }
  }
}
