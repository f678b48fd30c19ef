// Which records the final shards of the archive hold, hour by hour:
// src/archive/archive.ts.
module ArchiveHours {
  import opened Archive

  // -- One stream per hour ------------------------------------------------------------------

  // Within a run the clock does not go back past the start of an open shard's
  // hour, and a feed without an open shard has moved on from the hours of its
  // earlier ones: it is not written again once the archive has been closed.
  ghost predicate ClockForward(w: World, e: Event) {
    e.Write? ==>
      var (feed, hour) := (e.record.feed, HourOf(e.record.fetchedAtMs));
      if feed in w.shards then w.shards[feed].key.hour <= hour
      else forall s | 0 <= s < |w.sessions| && w.sessions[s].run == w.run && w.sessions[s].key.feed == feed ::
             w.sessions[s].key.hour < hour
  }

  ghost predicate OneStreamPerHour(w: World) {
    && (forall i, j | 0 <= i < j < |w.sessions| && w.sessions[i].run == w.sessions[j].run ::
       w.sessions[i].key != w.sessions[j].key)
    && (forall s | 0 <= s < |w.sessions| && w.sessions[s].run == w.run ::
       w.sessions[s].key.compression == w.compression)
    && (forall s | 0 <= s < |w.sessions| && w.sessions[s].run == w.run && w.sessions[s].key.feed in w.shards ::
          w.sessions[s].key.hour <= w.shards[w.sessions[s].key.feed].key.hour)
  }

  lemma SetAsideKeeps(w: World, key: ShardKey, stamp: int)
    ensures SetAside(w, key, stamp) == w.(disk := SetAside(w, key, stamp).disk)
  {
  }

  lemma OpenSession(w: World, feed: string)
    requires Inv(w) && feed in w.shards
    ensures var shard := w.shards[feed];
            shard.session < |w.sessions| && w.sessions[shard.session].run == w.run
            && w.sessions[shard.session].key == shard.key && shard.key.feed == feed
            && shard.key.compression == w.compression
  {
    assert OpenFaithfully(w, w.shards[feed]);
  }

  lemma ShardForKeepsOneStream(w: World, feed: string, hour: int, stamp: int, outcome: Outcome, opening: Opening)
    requires Inv(w) && OneStreamPerHour(w)
    requires if feed in w.shards then w.shards[feed].key.hour <= hour
             else forall s | 0 <= s < |w.sessions| && w.sessions[s].run == w.run && w.sessions[s].key.feed == feed ::
                    w.sessions[s].key.hour < hour
    ensures OneStreamPerHour(ShardFor(w, feed, hour, stamp, outcome, opening))
  {
    hide Close, SetAside, Inv;
    if feed in w.shards {
      OpenSession(w, feed);
      CloseKeepsSessions(Detach(w, feed), w.shards[feed], outcome);
    }
    if !Current(w, feed, hour) {
      var closed := CloseOne(w, feed, outcome);
      var key := ShardKey(feed, hour, w.compression);
      SetAsideKeeps(closed, key, stamp);
      assert forall s | 0 <= s < |w.sessions| && w.sessions[s].run == w.run :: w.sessions[s].key != key;
    }
  }

  lemma AcceptKeepsOneStream(w: World, record: Record)
    requires Inv(w) && OneStreamPerHour(w) && record.feed in w.shards && w.shards[record.feed].session < |w.sessions|
    ensures OneStreamPerHour(Accept(w, record))
  {
    hide Inv;
    var w' := Accept(w, record);
    assert forall s | 0 <= s < |w.sessions| ::
      w'.sessions[s].key == w.sessions[s].key && w'.sessions[s].run == w.sessions[s].run;
  }

  lemma FewerShards(w: World, w': World)
    requires OneStreamPerHour(w)
    requires w'.sessions == w.sessions && w'.run == w.run && w'.compression == w.compression
    requires forall feed | feed in w'.shards :: feed in w.shards && w'.shards[feed].key == w.shards[feed].key
    ensures OneStreamPerHour(w')
  {
  }

  lemma DrainKeepsOneStream(w: World, feed: string, n: nat)
    requires OneStreamPerHour(w)
    ensures OneStreamPerHour(Drain(w, feed, n))
  {
    hide OneStreamPerHour;
    FewerShards(w, Drain(w, feed, n));
  }

  lemma CloseKeepsOneStream(w: World, order: seq<string>, outcomes: string -> Outcome)
    requires OneStreamPerHour(w)
    ensures OneStreamPerHour(CloseEach(w, order, outcomes))
  {
    hide OneStreamPerHour, CloseEach;
    CloseEachKeepsSessions(w, order, outcomes);
    FewerShards(w, CloseEach(w, order, outcomes));
  }

  lemma CrashKeepsOneStream(w: World, compression: Compression)
    requires OneStreamPerHour(w) && SessionsOwn(w)
    ensures OneStreamPerHour(Crash(w, compression))
  {
  }

  lemma StepKeepsOneStream(w: World, e: Event)
    requires Inv(w) && OneStreamPerHour(w) && ClockForward(w, e)
    ensures OneStreamPerHour(Step(w, e))
  {
    assert SessionsOwn(w);
    hide Inv, OneStreamPerHour, ShardFor, Drain, CloseEach, Crash, Accept, SessionsOwn;
    match e
    case Write(record, stamp, outcome, opening, acknowledged) =>
      var hour := HourOf(record.fetchedAtMs);
      var ready := ShardFor(w, record.feed, hour, stamp, outcome, opening);
      ShardForKeepsInv(w, record.feed, hour, stamp, outcome, opening);
      ShardForKeepsOneStream(w, record.feed, hour, stamp, outcome, opening);
      if acknowledged && record.feed in ready.shards {
        AcceptKeepsInv(ready, record);
        AcceptKeepsOneStream(ready, record);
      }
    case Flow(feed, n) =>
      DrainKeepsOneStream(w, feed, n);
    case CloseAll(order, outcomes) =>
      CloseKeepsOneStream(w, order, outcomes);
    case Restart(compression) =>
      CrashKeepsOneStream(w, compression);
  }

  ghost predicate ForwardRun(w: World, events: seq<Event>)
    requires Inv(w)
  {
    events != [] ==>
      ForwardRun(w, events[..|events| - 1]) && ClockForward(Run(w, events[..|events| - 1]), events[|events| - 1])
  }

  lemma {:induction false} RunKeepsOneStream(w: World, events: seq<Event>)
    requires Inv(w) && OneStreamPerHour(w) && ForwardRun(w, events)
    ensures OneStreamPerHour(Run(w, events))
  {
    if events != [] {
      hide Inv, OneStreamPerHour;
      RunKeepsOneStream(w, events[..|events| - 1]);
      StepKeepsOneStream(Run(w, events[..|events| - 1]), events[|events| - 1]);
    }
  }

  // Everything one run was told to keep for a feed and hour, in order.
  ghost function WrittenBy(sessions: seq<Session>, run: nat, key: ShardKey): seq<Record> {
    if sessions == [] then []
    else
      var last := sessions[|sessions| - 1];
      WrittenBy(sessions[..|sessions| - 1], run, key) + if last.run == run && last.key == key then last.acked else []
  }

  lemma {:induction false} NoStream(sessions: seq<Session>, run: nat, key: ShardKey)
    requires forall t | 0 <= t < |sessions| :: !(sessions[t].run == run && sessions[t].key == key)
    ensures WrittenBy(sessions, run, key) == []
  {
    if sessions != [] {
      NoStream(sessions[..|sessions| - 1], run, key);
    }
  }

  lemma {:induction false} SoleStream(sessions: seq<Session>, s: nat)
    requires s < |sessions|
    requires forall t | 0 <= t < |sessions| && t != s ::
               !(sessions[t].run == sessions[s].run && sessions[t].key == sessions[s].key)
    ensures WrittenBy(sessions, sessions[s].run, sessions[s].key) == sessions[s].acked
  {
    var n := |sessions| - 1;
    if s < n {
      SoleStream(sessions[..n], s);
    } else {
      NoStream(sessions[..n], sessions[s].run, sessions[s].key);
    }
  }

  // A finished shard: the file of its final name or, where that was unlinked after
  // its upload, the stored object.
  function Shard(w: World, key: ShardKey): File {
    if Final(key) in w.disk then w.disk[Final(key)]
    else if key in w.remote then w.remote[key]
    else []
  }

  // With a clock that runs forward, a final shard holds everything that one run
  // acknowledged for its feed and hour: no run's hour is split over two shards.
  lemma FinalShardIsARunsHour(compression: Compression, events: seq<Event>, key: ShardKey)
    requires ForwardRun(Start(compression), events)
    requires Shard(Run(Start(compression), events), key) != []
    ensures var w := Run(Start(compression), events);
            exists run :: Shard(w, key)[0].records == WrittenBy(w.sessions, run, key)
  {
    var w := Run(Start(compression), events);
    FinalShardsAreWhole(compression, events);
    hide Inv;
    RunKeepsOneStream(Start(compression), events);
    var s := Shard(w, key)[0].session;
    SoleStream(w.sessions, s);
    assert Shard(w, key)[0].records == WrittenBy(w.sessions, w.sessions[s].run, key);
  }

  // -- Replaying the final shards ---------------------------------------------------------------

  function Attempt(e: Event, feed: string): seq<Record> {
    if e.Write? && e.record.feed == feed then [e.record] else []
  }

  // The records a feed's polls tried to write, in order.
  function Attempts(events: seq<Event>, feed: string): seq<Record>
    decreases |events|
  {
    if events == [] then []
    else Attempts(events[..|events| - 1], feed) + Attempt(events[|events| - 1], feed)
  }

  ghost predicate TimesIncrease(records: seq<Record>) {
    forall i, j | 0 <= i < j < |records| :: records[i].fetchedAtMs < records[j].fetchedAtMs
  }

  // Every stream of the feed acknowledged some of those records, in their order.
  ghost predicate AckedInOrder(w: World, feed: string, attempts: seq<Record>) {
    forall s | 0 <= s < |w.sessions| && w.sessions[s].key.feed == feed ::
      TimesIncrease(w.sessions[s].acked) && forall record | record in w.sessions[s].acked :: record in attempts
  }

  lemma ShardForSessions(w: World, feed: string, hour: int, stamp: int, outcome: Outcome, opening: Opening)
    ensures var sessions := ShardFor(w, feed, hour, stamp, outcome, opening).sessions;
            sessions == w.sessions
            || exists session: Session :: session.acked == [] && sessions == w.sessions + [session]
  {
    hide Close, SetAside;
    if !Current(w, feed, hour) {
      if feed in w.shards {
        CloseKeepsSessions(Detach(w, feed), w.shards[feed], outcome);
      }
      var closed := CloseOne(w, feed, outcome);
      SetAsideKeeps(closed, ShardKey(feed, hour, closed.compression), stamp);
      assert closed.sessions == w.sessions;
    }
  }

  lemma AppendInOrder(records: seq<Record>, last: Record)
    requires TimesIncrease(records) && forall r | r in records :: r.fetchedAtMs < last.fetchedAtMs
    ensures TimesIncrease(records + [last])
  {
  }

  lemma LastIsLatest(attempts: seq<Record>, last: Record)
    requires TimesIncrease(attempts + [last])
    ensures TimesIncrease(attempts)
    ensures forall r | r in attempts :: r.fetchedAtMs < last.fetchedAtMs
  {
    var all := attempts + [last];
    assert forall i, j | 0 <= i < j < |attempts| :: all[i] == attempts[i] && all[j] == attempts[j];
    forall r | r in attempts
      ensures r.fetchedAtMs < last.fetchedAtMs
    {
      var i :| 0 <= i < |attempts| && attempts[i] == r;
      assert all[i] == r && all[|attempts|] == last;
    }
  }

  lemma AcceptAcksInOrder(w: World, record: Record, attempts: seq<Record>)
    requires Inv(w) && record.feed in w.shards && w.shards[record.feed].session < |w.sessions|
    requires AckedInOrder(w, record.feed, attempts) && TimesIncrease(attempts + [record])
    ensures AckedInOrder(Accept(w, record), record.feed, attempts + [record])
  {
    LastIsLatest(attempts, record);
    OpenSession(w, record.feed);
    hide Inv, TimesIncrease;
    var s := w.shards[record.feed].session;
    AppendInOrder(w.sessions[s].acked, record);
  }

  lemma MoreAttempts(w: World, feed: string, attempts: seq<Record>, more: seq<Record>)
    requires AckedInOrder(w, feed, attempts)
    ensures AckedInOrder(w, feed, attempts + more)
  {
    hide TimesIncrease;
  }

  lemma OtherFeedAccepted(w: World, record: Record, feed: string, attempts: seq<Record>)
    requires Inv(w) && record.feed in w.shards && w.shards[record.feed].session < |w.sessions|
    requires AckedInOrder(w, feed, attempts) && record.feed != feed
    ensures AckedInOrder(Accept(w, record), feed, attempts)
  {
    OpenSession(w, record.feed);
    hide Inv, TimesIncrease;
  }

  lemma NewStreamsAreEmpty(w: World, w': World, feed: string, attempts: seq<Record>)
    requires AckedInOrder(w, feed, attempts)
    requires w'.sessions == w.sessions
             || exists session: Session :: session.acked == [] && w'.sessions == w.sessions + [session]
    ensures AckedInOrder(w', feed, attempts)
  {
    forall s | 0 <= s < |w'.sessions| && w'.sessions[s].key.feed == feed
      ensures TimesIncrease(w'.sessions[s].acked)
              && forall record | record in w'.sessions[s].acked :: record in attempts
    {
      if s < |w.sessions| {
        assert w'.sessions[s] == w.sessions[s];
      }
    }
  }

  lemma DrainSessions(w: World, feed: string, n: nat)
    ensures Drain(w, feed, n).sessions == w.sessions
  {
  }

  lemma StepAcksInOrder(w: World, e: Event, feed: string, attempts: seq<Record>)
    requires Inv(w) && AckedInOrder(w, feed, attempts) && TimesIncrease(attempts + Attempt(e, feed))
    ensures AckedInOrder(Step(w, e), feed, attempts + Attempt(e, feed))
  {
    hide Inv, AckedInOrder, ShardFor, Drain, CloseEach, Accept, TimesIncrease;
    match e
    case Write(record, stamp, outcome, opening, acknowledged) =>
      var hour := HourOf(record.fetchedAtMs);
      var ready := ShardFor(w, record.feed, hour, stamp, outcome, opening);
      ShardForKeepsInv(w, record.feed, hour, stamp, outcome, opening);
      ShardForSessions(w, record.feed, hour, stamp, outcome, opening);
      NewStreamsAreEmpty(w, ready, feed, attempts);
      if acknowledged && record.feed in ready.shards {
        AcceptKeepsInv(ready, record);
        if record.feed == feed {
          AcceptAcksInOrder(ready, record, attempts);
        } else {
          OtherFeedAccepted(ready, record, feed, attempts);
          assert attempts + [] == attempts;
        }
      } else {
        MoreAttempts(ready, feed, attempts, Attempt(e, feed));
      }
    case Flow(f, n) =>
      assert attempts + [] == attempts;
      DrainSessions(w, f, n);
      NewStreamsAreEmpty(w, Drain(w, f, n), feed, attempts);
    case CloseAll(order, outcomes) =>
      assert attempts + [] == attempts;
      CloseEachKeepsSessions(w, order, outcomes);
      NewStreamsAreEmpty(w, CloseEach(w, order, outcomes), feed, attempts);
    case Restart(compression) =>
      assert attempts + [] == attempts;
      NewStreamsAreEmpty(w, Crash(w, compression), feed, attempts);
  }

  lemma NoStreams(compression: Compression, feed: string)
    ensures AckedInOrder(Start(compression), feed, [])
  {
  }

  lemma PrefixInOrder(a: seq<Record>, b: seq<Record>)
    requires TimesIncrease(a + b)
    ensures TimesIncrease(a)
  {
    assert forall i | 0 <= i < |a| :: (a + b)[i] == a[i];
  }

  lemma {:induction false} RunAcksInOrder(compression: Compression, events: seq<Event>, feed: string)
    requires TimesIncrease(Attempts(events, feed))
    ensures AckedInOrder(Run(Start(compression), events), feed, Attempts(events, feed))
    decreases |events|
  {
    hide Inv, AckedInOrder, Step, TimesIncrease;
    if events == [] {
      NoStreams(compression, feed);
    } else {
      var n := |events| - 1;
      PrefixInOrder(Attempts(events[..n], feed), Attempt(events[n], feed));
      RunAcksInOrder(compression, events[..n], feed);
      StepAcksInOrder(Run(Start(compression), events[..n]), events[n], feed, Attempts(events[..n], feed));
    }
  }

  // The records of some final shards, shard after shard.
  function Replay(w: World, keys: seq<ShardKey>): seq<Record> {
    if keys == [] then []
    else
      var key := keys[|keys| - 1];
      Replay(w, keys[..|keys| - 1])
      + if Shard(w, key) != [] then Shard(w, key)[0].records else []
  }

  ghost predicate Recovered(w: World, keys: seq<ShardKey>, record: Record) {
    exists key | key in keys :: Shard(w, key) != [] && record in Shard(w, key)[0].records
  }

  // A feed's shards in the order of their hours.
  ghost predicate InHourOrder(keys: seq<ShardKey>, feed: string) {
    && (forall key | key in keys :: key.feed == feed)
    && forall i, j | 0 <= i < j < |keys| :: keys[i].hour < keys[j].hour
  }

  lemma {:induction false} ReplayMembers(w: World, keys: seq<ShardKey>)
    ensures forall record :: record in Replay(w, keys) <==> Recovered(w, keys, record)
  {
    if keys != [] {
      var n := |keys| - 1;
      ReplayMembers(w, keys[..n]);
      assert keys == keys[..n] + [keys[n]];
      forall record
        ensures record in Replay(w, keys) <==> Recovered(w, keys, record)
      {
        if Recovered(w, keys[..n], record) {
          var key :| key in keys[..n] && Shard(w, key) != [] && record in Shard(w, key)[0].records;
          assert key in keys;
        }
      }
    }
  }

  lemma ConcatInOrder(a: seq<Record>, b: seq<Record>)
    requires TimesIncrease(a) && TimesIncrease(b) && forall x, y | x in a && y in b :: x.fetchedAtMs < y.fetchedAtMs
    ensures TimesIncrease(a + b)
  {
    forall i, j | 0 <= i < j < |a + b|
      ensures (a + b)[i].fetchedAtMs < (a + b)[j].fetchedAtMs
    {
      if i < |a| <= j {
        assert a[i] in a && b[j - |a|] in b;
      }
    }
  }

  // What holds of each shard that is replayed.
  ghost predicate Replayable(w: World, key: ShardKey, attempts: seq<Record>) {
    Shard(w, key) != [] ==>
      var records := Shard(w, key)[0].records;
      TimesIncrease(records) && forall record | record in records ::
        record in attempts && HourOf(record.fetchedAtMs) == key.hour
  }

  lemma FinalIsReplayable(compression: Compression, events: seq<Event>, key: ShardKey)
    requires TimesIncrease(Attempts(events, key.feed))
    ensures Replayable(Run(Start(compression), events), key, Attempts(events, key.feed))
  {
    hide Inv, Run, TimesIncrease, Attempts;
    FinalShardsAreWhole(compression, events);
    RunAcksInOrder(compression, events, key.feed);
  }

  // Records in order, of a set of attempts, none in a later hour.
  ghost predicate UpTo(records: seq<Record>, attempts: seq<Record>, hour: int) {
    && TimesIncrease(records)
    && forall record | record in records :: record in attempts && HourOf(record.fetchedAtMs) <= hour
  }

  lemma EarlierHour(a: int, b: int)
    ensures HourOf(a) < HourOf(b) ==> a < b
  {
  }

  lemma NextShard(a: seq<Record>, b: seq<Record>, attempts: seq<Record>, before: int, hour: int)
    requires UpTo(a, attempts, before) && before < hour
    requires TimesIncrease(b) && forall record | record in b :: record in attempts && HourOf(record.fetchedAtMs) == hour
    ensures UpTo(a + b, attempts, hour)
  {
    hide TimesIncrease, HourOf;
    forall x, y | x in a && y in b
      ensures x.fetchedAtMs < y.fetchedAtMs
    {
      EarlierHour(x.fetchedAtMs, y.fetchedAtMs);
    }
    ConcatInOrder(a, b);
  }

  lemma LastKey(keys: seq<ShardKey>, feed: string)
    requires keys != [] && InHourOrder(keys, feed)
    ensures var n := |keys| - 1;
            InHourOrder(keys[..n], feed) && (n > 0 ==> keys[n - 1].hour < keys[n].hour)
  {
  }

  lemma NothingInOrder()
    ensures TimesIncrease([])
  {
  }

  // One more shard, of a later hour.
  lemma ShardAfter(w: World, key: ShardKey, a: seq<Record>, attempts: seq<Record>, before: int)
    requires Replayable(w, key, attempts) && UpTo(a, attempts, before) && before < key.hour
    ensures UpTo(a + (if Shard(w, key) != [] then Shard(w, key)[0].records else []),
                 attempts, key.hour)
  {
    hide TimesIncrease, UpTo, HourOf;
    NothingInOrder();
    if Shard(w, key) != [] {
      NextShard(a, Shard(w, key)[0].records, attempts, before, key.hour);
    } else {
      NextShard(a, [], attempts, before, key.hour);
    }
  }

  lemma NothingUpTo(attempts: seq<Record>, hour: int)
    ensures UpTo([], attempts, hour)
  {
  }

  lemma {:induction false} ReplayInOrder(w: World, keys: seq<ShardKey>, feed: string, attempts: seq<Record>)
    requires keys != [] && InHourOrder(keys, feed) && forall key | key in keys :: Replayable(w, key, attempts)
    ensures UpTo(Replay(w, keys), attempts, keys[|keys| - 1].hour)
  {
    hide TimesIncrease, UpTo, HourOf, InHourOrder, Replayable;
    var n := |keys| - 1;
    LastKey(keys, feed);
    var a := Replay(w, keys[..n]);
    if n == 0 {
      assert a == [];
      NothingUpTo(attempts, keys[0].hour - 1);
      ShardAfter(w, keys[0], a, attempts, keys[0].hour - 1);
    } else {
      assert forall key | key in keys[..n] :: key in keys;
      ReplayInOrder(w, keys[..n], feed, attempts);
      ShardAfter(w, keys[n], a, attempts, keys[n - 1].hour);
    }
  }

  // The attempts that the replay recovers.
  ghost function RecoveredOf(w: World, keys: seq<ShardKey>, attempts: seq<Record>): seq<Record> {
    if attempts == [] then []
    else
      var last := attempts[|attempts| - 1];
      RecoveredOf(w, keys, attempts[..|attempts| - 1]) + if Recovered(w, keys, last) then [last] else []
  }

  lemma {:induction false} RecoveredInOrder(w: World, keys: seq<ShardKey>, attempts: seq<Record>)
    requires TimesIncrease(attempts)
    ensures TimesIncrease(RecoveredOf(w, keys, attempts))
    ensures forall record :: record in RecoveredOf(w, keys, attempts) <==>
            record in attempts && Recovered(w, keys, record)
  {
    hide TimesIncrease, Recovered;
    if attempts == [] {
      NothingInOrder();
    } else {
      var n := |attempts| - 1;
      assert attempts == attempts[..n] + [attempts[n]];
      LastIsLatest(attempts[..n], attempts[n]);
      RecoveredInOrder(w, keys, attempts[..n]);
      var before := RecoveredOf(w, keys, attempts[..n]);
      AppendInOrder(before, attempts[n]);
      assert before + [] == before;
    }
  }

  lemma SplitLast(records: seq<Record>)
    requires records != [] && TimesIncrease(records)
    ensures var n := |records| - 1;
            && TimesIncrease(records[..n])
            && (forall r :: r in records <==> r in records[..n] || r == records[n])
            && forall r | r in records[..n] :: r.fetchedAtMs < records[n].fetchedAtMs
  {
    var n := |records| - 1;
    assert records == records[..n] + [records[n]];
    LastIsLatest(records[..n], records[n]);
  }

  lemma SameRest(a: seq<Record>, b: seq<Record>, restA: seq<Record>, restB: seq<Record>, last: Record)
    requires forall r :: r in a <==> r in b
    requires forall r :: r in a <==> r in restA || r == last
    requires forall r :: r in b <==> r in restB || r == last
    requires last !in restA && last !in restB
    ensures forall r :: r in restA <==> r in restB
  {
  }

  lemma {:induction false} SameSetSameOrder(a: seq<Record>, b: seq<Record>)
    requires TimesIncrease(a) && TimesIncrease(b) && forall record :: record in a <==> record in b
    ensures a == b
    decreases |a|
  {
    hide TimesIncrease;
    if |a| > 0 || |b| > 0 {
      if |b| > 0 {
        assert b[0] in b;
      }
      if |a| > 0 {
        assert a[0] in a;
      }
      var m, n := |a| - 1, |b| - 1;
      SplitLast(a);
      SplitLast(b);
      var (x, y) := (a[m], b[n]);
      assert x in a && y in b;
      assert x == y;
      SameRest(a, b, a[..m], b[..n], x);
      SameSetSameOrder(a[..m], b[..n]);
      assert a == a[..m] + [x] && b == b[..n] + [y];
    }
  }

  // Replaying a feed's final shards hour by hour gives exactly those of its
  // polls' records that some final shard holds, in the order of the polls.
  lemma ReplayIsTheRecoveredPolls(compression: Compression, events: seq<Event>, feed: string, keys: seq<ShardKey>)
    requires TimesIncrease(Attempts(events, feed)) && InHourOrder(keys, feed)
    ensures var w := Run(Start(compression), events);
            Replay(w, keys) == RecoveredOf(w, keys, Attempts(events, feed))
  {
    hide Inv, Run, TimesIncrease, Attempts, Replayable, Recovered;
    var w := Run(Start(compression), events);
    var attempts := Attempts(events, feed);
    forall key | key in keys
      ensures Replayable(w, key, attempts)
    {
      FinalIsReplayable(compression, events, key);
    }
    NothingInOrder();
    if keys != [] {
      ReplayInOrder(w, keys, feed, attempts);
    }
    ReplayMembers(w, keys);
    RecoveredInOrder(w, keys, attempts);
    SameSetSameOrder(Replay(w, keys), RecoveredOf(w, keys, attempts));
  }
}
