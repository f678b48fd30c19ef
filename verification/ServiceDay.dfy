// GTFS service days over an arbitrary time zone: src/util/time.ts.
//
// Instants are epoch milliseconds and dates are day numbers (see Calendar). The
// time zone database is a function from instants to offsets; RegularZone states
// what the source assumes of it.
module ServiceDay {
  import opened Wrappers

  const HOUR: int := 3_600_000
  const DAY: int := 24 * HOUR
  // No two clock changes fall within this much of each other.
  const CHANGE_SPACING: int := 3 * DAY

  function Abs(x: int): nat {
    if x < 0 then -x else x
  }

  function WallClock(tz: int -> int, instant: int): int {
    instant + tz(instant)
  }

  // localDateString
  function LocalDate(tz: int -> int, instant: int): int {
    WallClock(tz, instant) / DAY
  }

  // localHour
  function LocalHour(tz: int -> int, instant: int): int {
    WallClock(tz, instant) % DAY / HOUR
  }

  ghost predicate ClockChange(tz: int -> int, instant: int) {
    tz(instant - 1) != tz(instant)
  }

  // An hour forward or back, with the wall clock between 00:00 and 04:00 on
  // both sides of it.
  ghost predicate NightChange(tz: int -> int, instant: int) {
    && Abs(tz(instant) - tz(instant - 1)) == HOUR
    && (instant + tz(instant - 1)) % DAY <= 4 * HOUR
    && (instant + tz(instant)) % DAY <= 4 * HOUR
  }

  ghost predicate RegularZone(tz: int -> int) {
    && (forall t :: -8 * HOUR <= tz(t) <= -4 * HOUR)
    && (forall t :: ClockChange(tz, t) ==> NightChange(tz, t))
    && (forall t, u :: t < u && ClockChange(tz, t) && ClockChange(tz, u) ==> u - t > CHANGE_SPACING)
  }

  // -- Clock changes over intervals ------------------------------------------

  ghost predicate NoChange(tz: int -> int, a: int, b: int) {
    forall t | a < t <= b :: !ClockChange(tz, t)
  }

  lemma {:induction false} OffsetConstant(tz: int -> int, a: int, b: int)
    requires a <= b && NoChange(tz, a, b)
    ensures tz(a) == tz(b)
    decreases b - a
  {
    if a < b {
      assert !ClockChange(tz, b);
      OffsetConstant(tz, a, b - 1);
    }
  }

  // Within one spacing there is at most one change, so the offsets at the two
  // ends are those on the two sides of it.
  lemma OffsetsAround(tz: int -> int, a: int, b: int, change: int)
    requires RegularZone(tz) && a < change <= b <= a + CHANGE_SPACING && ClockChange(tz, change)
    ensures tz(a) == tz(change - 1) && tz(change) == tz(b)
  {
    OffsetConstant(tz, a, change - 1);
    OffsetConstant(tz, change, b);
  }

  lemma OffsetDrift(tz: int -> int, a: int, b: int)
    requires RegularZone(tz) && a <= b <= a + CHANGE_SPACING
    ensures tz(b) - tz(a) in {-HOUR, 0, HOUR}
  {
    if NoChange(tz, a, b) {
      OffsetConstant(tz, a, b);
    } else {
      var t :| a < t <= b && ClockChange(tz, t);
      OffsetsAround(tz, a, b, t);
      assert NightChange(tz, t);
    }
  }

  lemma ClockOfDay(day: int, r: int)
    requires 0 <= r < DAY
    ensures (day * DAY + r) / DAY == day && (day * DAY + r) % DAY == r
  {
  }

  // -- The service day ---------------------------------------------------------

  // Local noon of the date, by the source's two-step solve, minus 12 hours.
  function ServiceDayStart(tz: int -> int, date: int): int {
    var noonWallClockAsUtc := date * DAY + 12 * HOUR;
    var guess := noonWallClockAsUtc - tz(noonWallClockAsUtc);
    var instant := noonWallClockAsUtc - tz(guess);
    instant - 12 * HOUR
  }

  function Noon(tz: int -> int, date: int): int {
    ServiceDayStart(tz, date) + 12 * HOUR
  }

  // scheduledInstantMs
  function ScheduledInstant(tz: int -> int, date: int, seconds: int): int {
    ServiceDayStart(tz, date) + seconds * 1000
  }

  // A wall clock strictly past 04:00 that runs on, without reaching midnight,
  // meets no clock change.
  lemma DaytimeHasNoChange(tz: int -> int, date: int, a: int, b: int)
    requires RegularZone(tz) && a <= b <= a + CHANGE_SPACING
    requires date * DAY + 4 * HOUR <= WallClock(tz, a) && b + tz(a) < (date + 1) * DAY
    ensures NoChange(tz, a, b)
  {
    forall t | a < t <= b
      ensures !ClockChange(tz, t)
    {
      if ClockChange(tz, t) {
        OffsetsAround(tz, a, b, t);
        assert NightChange(tz, t);
        ClockOfDay(date, t + tz(t - 1) - date * DAY);
        assert false;
      }
    }
  }

  // The instant found does read noon on that date, and it is the only one that
  // does: noon is neither skipped nor repeated.
  lemma NoonReadsNoon(tz: int -> int, date: int)
    requires RegularZone(tz)
    ensures WallClock(tz, Noon(tz, date)) == date * DAY + 12 * HOUR
    ensures forall t :: WallClock(tz, t) == date * DAY + 12 * HOUR ==> t == Noon(tz, date)
  {
    var wall := date * DAY + 12 * HOUR;
    var guess := wall - tz(wall);
    DaytimeHasNoChange(tz, date, wall, guess);
    OffsetConstant(tz, wall, guess);
    assert Noon(tz, date) == guess;
    forall t | WallClock(tz, t) == wall
      ensures t == guess
    {
      var (a, b) := if t <= guess then (t, guess) else (guess, t);
      DaytimeHasNoChange(tz, date, a, b);
      OffsetConstant(tz, a, b);
    }
  }

  // Service days are 23, 24 or 25 hours long.
  lemma ServiceDayLength(tz: int -> int, date: int)
    requires RegularZone(tz)
    ensures ServiceDayStart(tz, date + 1) - ServiceDayStart(tz, date) in {23 * HOUR, 24 * HOUR, 25 * HOUR}
  {
    NoonReadsNoon(tz, date);
    NoonReadsNoon(tz, date + 1);
    OffsetDrift(tz, Noon(tz, date), Noon(tz, date + 1));
  }

  function Jump(tz: int -> int, instant: int): int {
    tz(instant) - tz(instant - 1)
  }

  // The clock goes forward (or back) by this much at some instant after the noon
  // of the date and no later than the next noon.
  ghost predicate ShiftsBeforeNextNoon(tz: int -> int, date: int, shift: int) {
    exists t | Noon(tz, date) < t <= Noon(tz, date + 1) :: Jump(tz, t) == shift
  }

  // Within one spacing a change accounts for the whole difference of the offsets.
  lemma JumpIsDrift(tz: int -> int, a: int, b: int, t: int)
    requires RegularZone(tz) && a < t <= b <= a + CHANGE_SPACING && Jump(tz, t) != 0
    ensures tz(b) - tz(a) == Jump(tz, t)
  {
    assert ClockChange(tz, t);
    OffsetsAround(tz, a, b, t);
  }

  lemma DriftIsJump(tz: int -> int, a: int, b: int)
    requires RegularZone(tz) && a <= b <= a + CHANGE_SPACING && tz(a) != tz(b)
    ensures exists t | a < t <= b :: Jump(tz, t) == tz(b) - tz(a)
  {
    if NoChange(tz, a, b) {
      OffsetConstant(tz, a, b);
    } else {
      var t :| a < t <= b && ClockChange(tz, t);
      JumpIsDrift(tz, a, b, t);
    }
  }

  // A service day is short exactly when the clocks go forward between its noon
  // and the next, and long exactly when they go back there.
  lemma ServiceDayLengthExactlyWhen(tz: int -> int, date: int)
    requires RegularZone(tz)
    ensures ServiceDayStart(tz, date + 1) - ServiceDayStart(tz, date) == 23 * HOUR <==>
            ShiftsBeforeNextNoon(tz, date, HOUR)
    ensures ServiceDayStart(tz, date + 1) - ServiceDayStart(tz, date) == 25 * HOUR <==>
            ShiftsBeforeNextNoon(tz, date, -HOUR)
  {
    var (a, b) := (Noon(tz, date), Noon(tz, date + 1));
    NoonReadsNoon(tz, date);
    NoonReadsNoon(tz, date + 1);
    ServiceDayLength(tz, date);
    hide ServiceDayStart, RegularZone, Jump;
    assert b - a == DAY - (tz(b) - tz(a));
    if tz(a) != tz(b) {
      DriftIsJump(tz, a, b);
    }
    forall t | a < t <= b && Jump(tz, t) != 0
      ensures Jump(tz, t) == tz(b) - tz(a)
    {
      JumpIsDrift(tz, a, b, t);
    }
  }

  // Such a change happens on the next date: it is the day before a change whose
  // service day is short or long.
  lemma ShiftIsOnNextDate(tz: int -> int, date: int, t: int)
    requires RegularZone(tz) && Noon(tz, date) < t <= Noon(tz, date + 1) && ClockChange(tz, t)
    ensures LocalDate(tz, t) == date + 1
  {
    var (a, b) := (Noon(tz, date), Noon(tz, date + 1));
    NoonReadsNoon(tz, date);
    NoonReadsNoon(tz, date + 1);
    OffsetDrift(tz, a, b);
    OffsetsAround(tz, a, b, t);
    assert NightChange(tz, t);
    var wall := WallClock(tz, t);
    assert date * DAY + 11 * HOUR <= wall <= (date + 1) * DAY + 12 * HOUR;
    if wall < (date + 1) * DAY {
      ClockOfDay(date, wall - date * DAY);
    } else {
      ClockOfDay(date + 1, wall - (date + 1) * DAY);
    }
  }

  // Distinct service days start at least 23 hours apart.
  lemma {:induction false} ServiceDaysApart(tz: int -> int, a: int, b: int)
    requires RegularZone(tz) && a < b
    ensures ServiceDayStart(tz, b) - ServiceDayStart(tz, a) >= 23 * HOUR
    decreases b - a
  {
    ServiceDayLength(tz, a);
    if a + 1 < b {
      ServiceDaysApart(tz, a + 1, b);
    }
  }

  // -- Choosing the service date -----------------------------------------------

  function Distance(tz: int -> int, date: int, seconds: int, observed: int): nat {
    Abs(ScheduledInstant(tz, date, seconds) - observed)
  }

  // The nearest running date of a list; the earlier entry wins a tie.
  function Nearest(tz: int -> int, candidates: seq<int>, seconds: int, observed: int, runsOn: int -> bool): Option<int>
  {
    if candidates == [] then None
    else
      var n := |candidates| - 1;
      var best := Nearest(tz, candidates[..n], seconds, observed, runsOn);
      if runsOn(candidates[n])
         && (best.None?
             || Distance(tz, candidates[n], seconds, observed) < Distance(tz, best.value, seconds, observed))
      then Some(candidates[n]) else best
  }

  function Candidates(tz: int -> int, observed: int): seq<int> {
    var centre := LocalDate(tz, observed);
    [centre - 1, centre, centre + 1]
  }

  function Resolve(tz: int -> int, observed: int, seconds: int, runsOn: int -> bool): Option<int> {
    Nearest(tz, Candidates(tz, observed), seconds, observed, runsOn)
  }

  method ResolveServiceDate(tz: int -> int, observed: int, seconds: int, runsOn: int -> bool)
    returns (best: Option<int>)
    ensures best == Resolve(tz, observed, seconds, runsOn)
  {
    var centre := LocalDate(tz, observed);
    var candidates := [centre - 1, centre, centre + 1];
    best := None;
    var bestDistance := 0;  // meaningful once best is set; the source starts at infinity
    for i := 0 to |candidates|
      invariant best == Nearest(tz, candidates[..i], seconds, observed, runsOn)
      invariant best.Some? ==> bestDistance == Distance(tz, best.value, seconds, observed)
    {
      assert candidates[..i + 1][..i] == candidates[..i];
      var candidate := candidates[i];
      if runsOn(candidate) {
        var distance := Abs(ScheduledInstant(tz, candidate, seconds) - observed);
        if best.None? || distance < bestDistance {
          bestDistance := distance;
          best := Some(candidate);
        }
      }
    }
    assert candidates[..|candidates|] == candidates;
  }

  // Entry k runs, none that runs is nearer, and none earlier is as near.
  ghost predicate FirstNearest(
      tz: int -> int, candidates: seq<int>, seconds: int, observed: int, runsOn: int -> bool, k: nat)
  {
    && k < |candidates| && runsOn(candidates[k])
    && forall j | 0 <= j < |candidates| && runsOn(candidates[j]) ::
         Distance(tz, candidates[k], seconds, observed) <= Distance(tz, candidates[j], seconds, observed)
         && (j < k ==> Distance(tz, candidates[k], seconds, observed) < Distance(tz, candidates[j], seconds, observed))
  }

  // The loop finds the earliest of the nearest running dates, and finds nothing
  // exactly when the trip runs on none of them.
  lemma {:induction false} NearestIsFirstNearest(
      tz: int -> int, candidates: seq<int>, seconds: int, observed: int, runsOn: int -> bool)
    ensures var best := Nearest(tz, candidates, seconds, observed, runsOn);
            if best.None? then forall i | 0 <= i < |candidates| :: !runsOn(candidates[i])
            else exists k: nat ::
              FirstNearest(tz, candidates, seconds, observed, runsOn, k) && candidates[k] == best.value
  {
    if candidates != [] {
      var n := |candidates| - 1;
      var front := candidates[..n];
      NearestIsFirstNearest(tz, front, seconds, observed, runsOn);
      var before := Nearest(tz, front, seconds, observed, runsOn);
      assert forall i | 0 <= i < n :: candidates[i] == front[i];
      if before.None? {
        assert runsOn(candidates[n]) ==> FirstNearest(tz, candidates, seconds, observed, runsOn, n);
      } else {
        var k: nat :| FirstNearest(tz, front, seconds, observed, runsOn, k) && front[k] == before.value;
        assert FirstNearest(tz, candidates, seconds, observed, runsOn,
          if Nearest(tz, candidates, seconds, observed, runsOn) == before then k else n);
      }
    }
  }

  // -- The guarantee -------------------------------------------------------------

  const LAST_SCHEDULED_SECOND: int := 35 * 3600
  const LATENESS_LIMIT: int := 11 * HOUR + HOUR / 2

  // An instant near a scheduled stop of service day `date` has a local date at
  // most one day away, so `date` is among the three candidates.
  lemma CandidateDates(tz: int -> int, date: int, seconds: int, observed: int)
    requires RegularZone(tz) && 0 <= seconds <= LAST_SCHEDULED_SECOND
    requires Distance(tz, date, seconds, observed) <= LATENESS_LIMIT
    ensures date in Candidates(tz, observed)
  {
    NoonReadsNoon(tz, date);
    var noon := Noon(tz, date);
    if noon <= observed {
      OffsetDrift(tz, noon, observed);
    } else {
      OffsetDrift(tz, observed, noon);
    }
    var wall := WallClock(tz, observed);
    assert (date - 1) * DAY <= wall < (date + 2) * DAY;
    assert date - 1 <= wall / DAY <= date + 1;
  }

  // A trip observed within 11.5 hours of its schedule is put on its own service
  // day, whatever other dates it runs on and whether or not the clocks change.
  lemma ResolvesToScheduledDay(tz: int -> int, date: int, seconds: int, observed: int, runsOn: int -> bool)
    requires RegularZone(tz) && runsOn(date) && 0 <= seconds <= LAST_SCHEDULED_SECOND
    requires Distance(tz, date, seconds, observed) < LATENESS_LIMIT
    ensures Resolve(tz, observed, seconds, runsOn) == Some(date)
  {
    CandidateDates(tz, date, seconds, observed);
    NearestIsFirstNearest(tz, Candidates(tz, observed), seconds, observed, runsOn);
    var chosen := Resolve(tz, observed, seconds, runsOn).value;
    if chosen < date {
      ServiceDaysApart(tz, chosen, date);
    } else if date < chosen {
      ServiceDaysApart(tz, date, chosen);
    }
  }

  // The bound is tight. When the service day before is a 23-hour one on which
  // the trip also runs, a bus exactly 11.5 hours early is put on that day.
  lemma EarlyTieGoesToDayBefore(tz: int -> int, date: int, seconds: int, runsOn: int -> bool)
    requires RegularZone(tz) && 0 <= seconds <= LAST_SCHEDULED_SECOND
    requires runsOn(date) && runsOn(date - 1)
    requires ServiceDayStart(tz, date) - ServiceDayStart(tz, date - 1) == 23 * HOUR
    ensures Resolve(tz, ScheduledInstant(tz, date, seconds) - LATENESS_LIMIT, seconds, runsOn) == Some(date - 1)
  {
    var observed := ScheduledInstant(tz, date, seconds) - LATENESS_LIMIT;
    CandidateDates(tz, date, seconds, observed);
    CandidateDates(tz, date - 1, seconds, observed);
    NearestIsFirstNearest(tz, Candidates(tz, observed), seconds, observed, runsOn);
    var chosen := Resolve(tz, observed, seconds, runsOn).value;
    if chosen < date - 1 {
      ServiceDaysApart(tz, chosen, date - 1);
    } else if date < chosen {
      ServiceDaysApart(tz, date, chosen);
    }
  }

  // A zone with one spring-forward, at 02:00 local on day 1: it meets every
  // hypothesis above, and day 0 is 23 hours long in it.
  function SpringForward(instant: int): int {
    if instant < DAY + 8 * HOUR then -6 * HOUR else -5 * HOUR
  }

  lemma SpringForwardIsRegular()
    ensures RegularZone(SpringForward)
    ensures ServiceDayStart(SpringForward, 1) - ServiceDayStart(SpringForward, 0) == 23 * HOUR
  {
    var tz := SpringForward;
    forall t | ClockChange(tz, t)
      ensures NightChange(tz, t) && t == DAY + 8 * HOUR
    {
    }
    assert ServiceDayStart(tz, 1) == DAY + 5 * HOUR && ServiceDayStart(tz, 0) == 6 * HOUR;
  }
}
