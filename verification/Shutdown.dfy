// Stopping any number of concurrent poll loops: Shutdown, runLoop and the tail
// of main in src/worker.ts.
//
// JavaScript runs one turn at a time, so a step here is what happens between
// two awaits.
module Shutdown {
  import opened Wrappers
  import Archive

  // Where a poll loop is: about to test its guard, awaiting its poll, awaiting
  // the run record, asleep between polls, or returned.
  datatype Position = AtGuard | Polling | Recording | Asleep | Done

  // `waiters` holds the loops whose wake function is in the Set; `archive` is the
  // archive the polls write to; `closed` is set once main has joined the loops
  // and closed it.
  datatype System = System(
    stopping: bool, waiters: set<nat>, loops: seq<Position>, archive: Archive.World, closed: bool)

  // A poll ends with or without a write to the archive, however that turned out.
  // Closing visits the open shards in some order.
  datatype Event =
    | Guard(i: nat)
    | PollEnds(i: nat, write: Option<Archive.Event>)
    | Recorded(i: nat)
    | TimerFires(i: nat)
    | Signal
    | CloseArchive(order: seq<string>, outcomes: string -> Archive.Outcome)

  predicate AllDone(s: System) {
    forall i | 0 <= i < |s.loops| :: s.loops[i] == Done
  }

  predicate Enabled(s: System, e: Event) {
    match e
    case Guard(i) => i < |s.loops| && s.loops[i] == AtGuard
    case PollEnds(i, write) => i < |s.loops| && s.loops[i] == Polling && (write.Some? ==> write.value.Write?)
    case Recorded(i) => i < |s.loops| && s.loops[i] == Recording
    case TimerFires(i) => i < |s.loops| && s.loops[i] == Asleep && i in s.waiters
    case Signal => true
    case CloseArchive(order, _) => AllDone(s) && !s.closed && forall feed | feed in s.archive.shards :: feed in order
  }

  // wake(): leave the set and resume.
  function Wake(s: System, i: nat): System
    requires i < |s.loops|
  {
    s.(waiters := s.waiters - {i}, loops := s.loops[i := AtGuard])
  }

  // shutdown.sleep, from the loop that calls it.
  function Sleep(s: System, i: nat): System
    requires i < |s.loops|
  {
    if s.stopping then s.(loops := s.loops[i := AtGuard])
    else s.(waiters := s.waiters + {i}, loops := s.loops[i := Asleep])
  }

  function Step(s: System, e: Event): (s': System)
    requires Enabled(s, e) && Archive.Inv(s.archive)
    ensures Archive.Inv(s'.archive)
  {
    match e
    case Guard(i) => s.(loops := s.loops[i := if s.stopping then Done else Polling])
    case PollEnds(i, write) =>
      s.(loops := s.loops[i := Recording],
         archive := if write.Some? then Archive.Step(s.archive, write.value) else s.archive)
    case Recorded(i) => Sleep(s, i)
    case TimerFires(i) => Wake(s, i)
    case Signal =>
      s.(stopping := true, waiters := {},
         loops := seq(|s.loops|, i requires 0 <= i < |s.loops| => if i in s.waiters then AtGuard else s.loops[i]))
    case CloseArchive(order, outcomes) =>
      s.(archive := Archive.Step(s.archive, Archive.CloseAll(order, outcomes)), closed := true)
  }

  function Start(n: nat, archive: Archive.World): System {
    System(false, {}, seq(n, _ => AtGuard), archive, false)
  }

  // A sequence of events each possible where it happens.
  predicate Possible(s: System, events: seq<Event>)
    requires Archive.Inv(s.archive)
    decreases |events|
  {
    events != [] ==> Enabled(s, events[0]) && Possible(Step(s, events[0]), events[1..])
  }

  function Run(s: System, events: seq<Event>): System
    requires Archive.Inv(s.archive) && Possible(s, events)
    decreases |events|
  {
    if events == [] then s else Run(Step(s, events[0]), events[1..])
  }

  // -- What every step keeps --------------------------------------------------

  ghost predicate Inv(s: System) {
    && (forall i | 0 <= i < |s.loops| :: s.loops[i] == Asleep <==> i in s.waiters)
    && (forall i | i in s.waiters :: i < |s.loops|)
    && (s.stopping ==> s.waiters == {})
    && (forall i | 0 <= i < |s.loops| && s.loops[i] == Done :: s.stopping)
    && (s.closed ==> AllDone(s) && s.archive.shards == map[])
    && Archive.Inv(s.archive)
  }

  lemma StartIsValid(n: nat, archive: Archive.World)
    requires Archive.Inv(archive)
    ensures Inv(Start(n, archive))
  {
    hide Archive.Inv;
  }

  // Closing leaves no shard open because it visits each one that is.
  lemma CloseLeavesNoneOpen(archive: Archive.World, order: seq<string>, outcomes: string -> Archive.Outcome)
    requires Archive.Inv(archive) && forall feed | feed in archive.shards :: feed in order
    ensures Archive.Step(archive, Archive.CloseAll(order, outcomes)).shards == map[]
  {
    hide Archive.Inv, Archive.CloseEach;
    Archive.ClosedAreGone(archive, order, outcomes);
  }

  lemma StepKeepsInv(s: System, e: Event)
    requires Inv(s) && Enabled(s, e)
    ensures Inv(Step(s, e)) && |Step(s, e).loops| == |s.loops|
  {
    hide Archive.Inv, Archive.Step;
    var s' := Step(s, e);
    if s.closed && |s.loops| > 0 {
      assert s.loops[0] == Done;
    }
    if e.CloseArchive? {
      CloseLeavesNoneOpen(s.archive, e.order, e.outcomes);
    }
  }

  // At every moment of every run, for any number of loops: a loop is asleep
  // exactly when its waker is in the set, so no sleeper can be missed.
  lemma {:induction false} AsleepIffWaiting(s: System, events: seq<Event>)
    requires Inv(s) && Possible(s, events)
    ensures Inv(Run(s, events)) && |Run(s, events).loops| == |s.loops|
    decreases |events|
  {
    if events != [] {
      hide Inv, Archive.Inv, Step;
      StepKeepsInv(s, events[0]);
      AsleepIffWaiting(Step(s, events[0]), events[1..]);
    }
  }

  // -- Before the signal -----------------------------------------------------------

  // How often a loop passed its guard, ended a poll, finished its record, and woke.
  function Guards(events: seq<Event>, i: nat): nat {
    if events == [] then 0 else (if events[0] == Guard(i) then 1 else 0) + Guards(events[1..], i)
  }

  function PollsEnded(events: seq<Event>, i: nat): nat {
    if events == [] then 0
    else (if events[0].PollEnds? && events[0].i == i then 1 else 0) + PollsEnded(events[1..], i)
  }

  function Records(events: seq<Event>, i: nat): nat {
    if events == [] then 0 else (if events[0] == Recorded(i) then 1 else 0) + Records(events[1..], i)
  }

  function Timers(events: seq<Event>, i: nat): nat {
    if events == [] then 0 else (if events[0] == TimerFires(i) then 1 else 0) + Timers(events[1..], i)
  }

  function Is(s: System, i: nat, position: Position): nat
    requires i < |s.loops|
  {
    if s.loops[i] == position then 1 else 0
  }

  // Between two states, so many passes, ends, records and wakes of one loop.
  ghost predicate KeepsPace(s: System, s': System, i: nat, guards: nat, ends: nat, records: nat, timers: nat)
    requires i < |s.loops| == |s'.loops|
  {
    && !s'.stopping && s'.closed == s.closed && s'.loops[i] != Done
    && Is(s, i, Polling) + guards == ends + Is(s', i, Polling)
    && Is(s, i, Recording) + ends == records + Is(s', i, Recording)
    && Is(s, i, Asleep) + records == timers + Is(s', i, Asleep)
  }

  lemma OneTurn(s: System, e: Event, i: nat)
    requires Archive.Inv(s.archive) && Enabled(s, e) && !e.Signal? && !e.CloseArchive? && !s.stopping
    requires i < |s.loops| && s.loops[i] != Done
    ensures |Step(s, e).loops| == |s.loops|
    ensures KeepsPace(s, Step(s, e), i, if e == Guard(i) then 1 else 0, if e.PollEnds? && e.i == i then 1 else 0,
                      if e == Recorded(i) then 1 else 0, if e == TimerFires(i) then 1 else 0)
  {
    hide Archive.Inv, Archive.Step;
  }

  // Until the signal no loop returns: each polls, records and sleeps in turn, as
  // often as it passed its guard.
  lemma {:induction false} LoopsTakeTurns(s: System, events: seq<Event>, i: nat)
    requires Archive.Inv(s.archive) && Possible(s, events) && Signal !in events && !s.stopping
    requires i < |s.loops| && s.loops[i] != Done
    ensures |Run(s, events).loops| == |s.loops|
    ensures KeepsPace(s, Run(s, events), i, Guards(events, i), PollsEnded(events, i), Records(events, i),
                      Timers(events, i))
    decreases |events|
  {
    if events != [] {
      assert events[0] in events && forall e | e in events[1..] :: e in events;
      assert !events[0].CloseArchive?;
      hide Archive.Inv, Step;
      OneTurn(s, events[0], i);
      LoopsTakeTurns(Step(s, events[0]), events[1..], i);
    }
  }

  // What the loops and the shutdown do to the archive.
  function ArchiveEvents(events: seq<Event>): seq<Archive.Event> {
    if events == [] then []
    else
      (match events[0]
       case PollEnds(_, Some(write)) => [write]
       case CloseArchive(order, outcomes) => [Archive.CloseAll(order, outcomes)]
       case _ => [])
      + ArchiveEvents(events[1..])
  }

  lemma {:induction false} RunFirst(w: Archive.World, e: Archive.Event, events: seq<Archive.Event>)
    requires Archive.Inv(w)
    ensures Archive.Run(w, [e] + events) == Archive.Run(Archive.Step(w, e), events)
    decreases |events|
  {
    hide Archive.Inv, Archive.Step;
    var all := [e] + events;
    if events == [] {
      assert all == [e] && all[..0] == [];
      assert Archive.Run(w, all) == Archive.Step(Archive.Run(w, all[..0]), e);
    } else {
      assert all[..|all| - 1] == [e] + events[..|events| - 1];
      RunFirst(w, e, events[..|events| - 1]);
    }
  }

  // The archive has seen the writes of all the loops, in the order they ended, and
  // nothing else.
  lemma {:induction false} ArchiveSeesTheWrites(s: System, events: seq<Event>)
    requires Archive.Inv(s.archive) && Possible(s, events)
    ensures Run(s, events).archive == Archive.Run(s.archive, ArchiveEvents(events))
    decreases |events|
  {
    if events != [] {
      hide Archive.Inv, Archive.Step;
      var rest := ArchiveEvents(events[1..]);
      var next := Step(s, events[0]);
      ArchiveSeesTheWrites(next, events[1..]);
      match events[0]
      case PollEnds(_, Some(write)) => RunFirst(s.archive, write, rest);
      case CloseArchive(order, outcomes) => RunFirst(s.archive, Archive.CloseAll(order, outcomes), rest);
      case _ => assert [] + rest == rest;
    }
  }

  // -- Safety after the signal ---------------------------------------------------

  // Once stopping is set it stays set, no loop is or falls asleep, and no loop
  // starts a poll: a loop found polling later was polling all along.
  lemma {:induction false} NoSleepNoPollAfterSignal(s: System, events: seq<Event>)
    requires Inv(s) && s.stopping && Possible(s, events)
    ensures Run(s, events).stopping && |Run(s, events).loops| == |s.loops|
    ensures forall i | 0 <= i < |s.loops| :: Run(s, events).loops[i] != Asleep
    ensures forall i | 0 <= i < |s.loops| && Run(s, events).loops[i] == Polling :: s.loops[i] == Polling
    decreases |events|
  {
    if events != [] {
      StepKeepsInv(s, events[0]);
      NoSleepNoPollAfterSignal(Step(s, events[0]), events[1..]);
    }
  }

  // -- Progress --------------------------------------------------------------------

  // Turns a stopping loop still needs before it returns.
  function Turns(p: Position): nat {
    match p
    case Done => 0
    case AtGuard => 1
    case Recording => 2
    case Polling => 3
    case Asleep => 2
  }

  function TurnsLeft(loops: seq<Position>): nat {
    if loops == [] then 0 else TurnsLeft(loops[..|loops| - 1]) + Turns(loops[|loops| - 1])
  }

  function Measure(s: System): nat {
    TurnsLeft(s.loops) + if s.closed then 0 else 1
  }

  lemma {:induction false} TurnsAfterUpdate(loops: seq<Position>, i: nat, p: Position)
    requires i < |loops|
    ensures TurnsLeft(loops[i := p]) == TurnsLeft(loops) - Turns(loops[i]) + Turns(p)
  {
    var n := |loops| - 1;
    if i == n {
      assert loops[i := p][..n] == loops[..n];
    } else {
      assert loops[i := p][..n] == loops[..n][i := p];
      TurnsAfterUpdate(loops[..n], i, p);
    }
  }

  lemma {:induction false} TurnsBound(loops: seq<Position>)
    ensures TurnsLeft(loops) <= 3 * |loops|
    ensures TurnsLeft(loops) == 0 <==> forall i | 0 <= i < |loops| :: loops[i] == Done
  {
    if loops != [] {
      TurnsBound(loops[..|loops| - 1]);
      assert forall i | 0 <= i < |loops| - 1 :: loops[..|loops| - 1][i] == loops[i];
    }
  }

  // While stopping, each turn other than a repeated signal brings the end one
  // turn nearer, and a repeated signal changes nothing.
  lemma StoppingTurn(s: System, e: Event)
    requires Inv(s) && s.stopping && Enabled(s, e)
    ensures if e.Signal? then Step(s, e) == s else Measure(Step(s, e)) == Measure(s) - 1
  {
    hide Archive.Inv, Archive.Step;
    match e
    case Guard(i) => TurnsAfterUpdate(s.loops, i, Done);
    case PollEnds(i, _) =>
      TurnsAfterUpdate(s.loops, i, Recording);
    case Recorded(i) => TurnsAfterUpdate(s.loops, i, AtGuard);
    case TimerFires(i) =>
      assert false;
    case Signal => assert Step(s, e).loops == s.loops;
    case CloseArchive(_, _) =>
  }

  ghost function SomeOrder(feeds: set<string>): (order: seq<string>)
    ensures forall feed :: feed in order <==> feed in feeds
  {
    if feeds == {} then []
    else
      var feed :| feed in feeds;
      SomeOrder(feeds - {feed}) + [feed]
  }

  // Until main has closed the archive, some turn is always possible.
  lemma NeverStuck(s: System)
    requires Inv(s) && s.stopping && !s.closed
    ensures exists e: Event :: !e.Signal? && Enabled(s, e)
  {
    hide Archive.Inv;
    if AllDone(s) {
      var order := SomeOrder(s.archive.shards.Keys);
      assert Enabled(s, CloseArchive(order, _ => Archive.RenameFailed));
    } else {
      var i: nat :| i < |s.loops| && s.loops[i] != Done;
      assert s.loops[i] != Asleep;
      assert Enabled(s, Guard(i)) || Enabled(s, PollEnds(i, None)) || Enabled(s, Recorded(i));
    }
  }

  ghost function TurnsTaken(events: seq<Event>): nat
    decreases |events|
  {
    if events == [] then 0 else TurnsTaken(events[1..]) + if events[0].Signal? then 0 else 1
  }

  // Counting turns: they are bounded by three a loop and one for main, and a run
  // that has taken them all has closed the archive with no shard left open.
  lemma {:induction false} ShutdownCompletes(s: System, events: seq<Event>)
    requires Inv(s) && s.stopping && Possible(s, events)
    ensures TurnsTaken(events) == Measure(s) - Measure(Run(s, events)) <= 3 * |s.loops| + 1
    ensures (forall e: Event | !e.Signal? :: !Enabled(Run(s, events), e)) <==> TurnsTaken(events) == Measure(s)
    ensures TurnsTaken(events) == Measure(s) ==>
              AllDone(Run(s, events)) && Run(s, events).closed && Run(s, events).archive.shards == map[]
    decreases |events|
  {
    TurnsBound(s.loops);
    if events == [] {
      if !s.closed { NeverStuck(s); }
    } else {
      StepKeepsInv(s, events[0]);
      StoppingTurn(s, events[0]);
      ShutdownCompletes(Step(s, events[0]), events[1..]);
    }
  }

  // -- The class ---------------------------------------------------------------------

  // `loops` stands for the promises the wakers resolve.
  class ShutdownSignal {
    var stopping: bool
    var waiters: set<nat>
    var loops: seq<Position>

    // The rest of the worker, which these methods leave alone.
    ghost const archive: Archive.World

    ghost function State(): System
      reads this
    {
      System(stopping, waiters, loops, archive, false)
    }

    constructor (n: nat, ghost archive: Archive.World)
      ensures State() == Start(n, archive)
    {
      this.archive := archive;
      stopping := false;
      waiters := {};
      loops := seq(n, _ => AtGuard);
    }

    method WakeLoop(i: nat)
      requires i < |loops|
      modifies this`waiters, this`loops
      ensures State() == Wake(old(State()), i)
    {
      waiters := waiters - {i};
      loops := loops[i := AtGuard];
    }

    method SleepLoop(i: nat)
      requires i < |loops|
      modifies this`waiters, this`loops
      ensures State() == Sleep(old(State()), i)
    {
      if stopping {
        loops := loops[i := AtGuard];
        return;
      }
      waiters := waiters + {i};
      loops := loops[i := Asleep];
    }

    // Every waker of a copy of the set is called, then the set is cleared.
    method SignalAll()
      requires Inv(State())
      modifies this
      ensures State() == Step(old(State()), Signal)
    {
      stopping := true;
      var copy := waiters;
      while copy != {}
        invariant stopping && copy <= old(waiters) && |loops| == |old(loops)|
        invariant forall i | 0 <= i < |loops| ::
                    loops[i] == if i in old(waiters) && i !in copy then AtGuard else old(loops)[i]
        decreases copy
      {
        var i :| i in copy;
        assert i in old(waiters) && i < |old(loops)|;
        WakeLoop(i);
        copy := copy - {i};
      }
      waiters := {};
      assert loops == Step(old(State()), Signal).loops;
    }
  }
}
