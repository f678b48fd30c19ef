// What each step of the archive leaves on disk and in the store, path by path,
// and what a run without failures leaves in all: src/archive/archive.ts.
module ArchiveOutcome {
  import opened Archive
  import opened ArchiveHours

  // The same file, or none, under a path.
  ghost predicate SameFile(disk: Disk, disk': Disk, path: Path) {
    (path in disk' <==> path in disk) && (path in disk ==> disk'[path] == disk[path])
  }

  ghost predicate SameObject(remote: map<ShardKey, File>, remote': map<ShardKey, File>, key: ShardKey) {
    (key in remote' <==> key in remote) && (key in remote ==> remote'[key] == remote[key])
  }

  // -- Closing ---------------------------------------------------------------------------------

  lemma FlushedPrefix(before: seq<Record>, buffered: seq<Record>, drained: nat)
    ensures var (acked, flushed) := (before + buffered, |before| + drained);
            before + Prefix(buffered, drained) == if flushed < |acked| then acked[..flushed] else acked
  {
  }

  // What closing leaves alone: the other shards, and all but the shard's own two
  // names and its own object.
  ghost predicate OnlyCloses(w: World, w': World, feed: string)
    requires feed in w.shards
  {
    var key := w.shards[feed].key;
    && w'.shards == w.shards - {feed} && w'.sessions == w.sessions
    && w'.run == w.run && w'.compression == w.compression
    && (forall path | path != Partial(key) && path != Final(key) :: SameFile(w.disk, w'.disk, path))
    && forall other | other != key :: SameObject(w.remote, w'.remote, other)
  }

  // The file with more of the stream in it.
  lemma Settles(w: World, shard: OpenShard, part: seq<Record>, complete: bool)
    ensures var (partial, settled) := (Partial(shard.key), Settle(w, shard, part, complete));
            && settled == w.(disk := settled.disk) && partial in settled.disk
            && settled.disk[partial] == [Member(shard.session, OnDisk(w.disk, shard.key) + part, complete)]
            && forall path | path != partial :: SameFile(w.disk, settled.disk, path)
  {
    hide OnDisk;
  }

  // What was acknowledged to an open shard is what its file and its buffer hold.
  lemma AckedInParts(w: World, feed: string)
    requires Inv(w) && feed in w.shards
    ensures var shard := w.shards[feed];
            shard.session < |w.sessions|
            && OnDisk(Detach(w, feed).disk, shard.key) + shard.buffered == w.sessions[shard.session].acked
  {
    assert OpenFaithfully(w, w.shards[feed]);
  }

  // The file once it is complete and has its final name.
  lemma Finishes(w: World, shard: OpenShard)
    ensures var (partial, final) := (Partial(shard.key), Final(shard.key));
            var finished := Rename(Settle(w, shard, shard.buffered, true), partial, final);
            && finished == w.(disk := finished.disk)
            && partial !in finished.disk && final in finished.disk
            && finished.disk[final] == [Member(shard.session, OnDisk(w.disk, shard.key) + shard.buffered, true)]
            && forall path | path != partial && path != final :: SameFile(w.disk, finished.disk, path)
  {
  }

  // A shard that is finalised holds all that was acknowledged to it, under its
  // final name unless it was unlinked, and in the store if it was uploaded.
  lemma FinalisingLeaves(w: World, feed: string, upload: Upload)
    requires Inv(w) && feed in w.shards
    ensures var (shard, w') := (w.shards[feed], CloseOne(w, feed, Finalised(upload)));
            && OnlyCloses(w, w', feed) && shard.session < |w.sessions|
            && var file := [Member(shard.session, w.sessions[shard.session].acked, true)];
               && Partial(shard.key) !in w'.disk
               && (if upload == Uploaded(true) then Final(shard.key) !in w'.disk
                   else Final(shard.key) in w'.disk && w'.disk[Final(shard.key)] == file)
               && (if upload.Uploaded? then shard.key in w'.remote && w'.remote[shard.key] == file
                   else SameObject(w.remote, w'.remote, shard.key))
  {
    hide Inv, OnDisk, Settle, Rename;
    AckedInParts(w, feed);
    var (shard, w') := (w.shards[feed], CloseOne(w, feed, Finalised(upload)));
    Settles(Detach(w, feed), shard, shard.buffered, true);
    Finishes(Detach(w, feed), shard);
    var finished := Rename(Settle(Detach(w, feed), shard, shard.buffered, true), Partial(shard.key), Final(shard.key));
    forall path | path != Partial(shard.key) && path != Final(shard.key)
      ensures SameFile(w.disk, w'.disk, path)
    {
      assert SameFile(w.disk, finished.disk, path);
    }
  }

  // One whose rename failed holds the same under the name it had; one whose flush
  // failed holds the first so much of it, unfinished.
  lemma FailedClosingLeaves(w: World, feed: string, outcome: Outcome)
    requires Inv(w) && feed in w.shards && !outcome.Finalised?
    ensures var (shard, w') := (w.shards[feed], CloseOne(w, feed, outcome));
            && OnlyCloses(w, w', feed) && shard.session < |w.sessions|
            && var (partial, acked) := (Partial(shard.key), w.sessions[shard.session].acked);
               && SameFile(w.disk, w'.disk, Final(shard.key)) && SameObject(w.remote, w'.remote, shard.key)
               && partial in w'.disk
               && (outcome.RenameFailed? ==> w'.disk[partial] == [Member(shard.session, acked, true)])
               && (outcome.FlushFailed? ==>
                     var flushed := |acked| - |shard.buffered| + outcome.drained;
                     w'.disk[partial] ==
                     [Member(shard.session, if flushed < |acked| then acked[..flushed] else acked, false)])
  {
    hide Inv, OnDisk, Prefix, Settle;
    AckedInParts(w, feed);
    var (detached, shard) := (Detach(w, feed), w.shards[feed]);
    match outcome
    case RenameFailed => Settles(detached, shard, shard.buffered, true);
    case FlushFailed(drained) =>
      Settles(detached, shard, Prefix(shard.buffered, drained), false);
      FlushedPrefix(OnDisk(detached.disk, shard.key), shard.buffered, drained);
  }

  // So what is replayed of a shard that was finalised is all of it, wherever it is.
  lemma ClosedShardIsReplayed(w: World, feed: string, upload: Upload)
    requires Inv(w) && feed in w.shards
    ensures var shard := w.shards[feed];
            shard.session < |w.sessions|
            && Shard(CloseOne(w, feed, Finalised(upload)), shard.key) ==
               [Member(shard.session, w.sessions[shard.session].acked, true)]
  {
    FinalisingLeaves(w, feed, upload);
    hide Inv, CloseOne;
  }

  // -- Writing ----------------------------------------------------------------------------------

  lemma CloseKeepsCompression(w: World, feed: string, outcome: Outcome)
    requires feed in w.shards
    ensures CloseOne(w, feed, outcome).compression == w.compression
  {
  }

  // A write of an hour whose shard is open adds to it. Otherwise the feed's shard,
  // if any, is closed, and a new stream is opened for the hour in an empty file,
  // the abandoned one of its name having been moved aside; or the feed is left
  // without a shard, exactly when the directory cannot be made or an abandoned
  // file not be moved.
  lemma RotationLeaves(w: World, feed: string, hour: int, stamp: int, outcome: Outcome, opening: Opening)
    ensures var w' := ShardFor(w, feed, hour, stamp, outcome, opening);
            if feed in w.shards && w.shards[feed].key.hour == hour then w' == w
            else
              var (closed, key) := (CloseOne(w, feed, outcome), ShardKey(feed, hour, w.compression));
              if opening == MkdirFailed || (opening == SetAsideFailed && Partial(key) in closed.disk) then w' == closed
              else
                && w'.shards == closed.shards[feed := OpenShard(key, |closed.sessions|, [], 0)]
                && w'.sessions == closed.sessions + [Session(key, closed.run, [])]
                && w'.remote == closed.remote
                && Partial(key) in w'.disk && w'.disk[Partial(key)] == [Member(|closed.sessions|, [], false)]
                && (Partial(key) in closed.disk ==>
                      Salvaged(key, stamp) in w'.disk && w'.disk[Salvaged(key, stamp)] == closed.disk[Partial(key)])
                && forall path | path != Partial(key) && path != Salvaged(key, stamp) ::
                   SameFile(closed.disk, w'.disk, path)
  {
    hide Close;
    var closed := CloseOne(w, feed, outcome);
    if feed in w.shards {
      CloseKeepsCompression(w, feed, outcome);
    }
  }

  // An acknowledged record is the last of its stream.
  lemma WriteIsLast(w: World, record: Record, stamp: int, outcome: Outcome, opening: Opening)
    requires Inv(w)
    ensures var w' := Step(w, Write(record, stamp, outcome, opening, true));
            var ready := ShardFor(w, record.feed, HourOf(record.fetchedAtMs), stamp, outcome, opening);
            if record.feed in ready.shards then
              var s := ready.shards[record.feed].session;
              s < |ready.sessions| && |w'.sessions| == |ready.sessions|
              && w'.sessions[s].acked == ready.sessions[s].acked + [record]
              && record.feed in w'.shards && w'.shards[record.feed].session == s
              && w'.disk == ready.disk && w'.remote == ready.remote
              && (forall t | 0 <= t < |ready.sessions| && t != s :: w'.sessions[t] == ready.sessions[t])
            else w' == ready
  {
    ShardForKeepsInv(w, record.feed, HourOf(record.fetchedAtMs), stamp, outcome, opening);
    var ready := ShardFor(w, record.feed, HourOf(record.fetchedAtMs), stamp, outcome, opening);
    hide ShardFor;
    if record.feed in ready.shards {
      assert OpenFaithfully(ready, ready.shards[record.feed]);
    }
    hide Inv;
  }

  // The pipe moves the first so many buffered records to the end of the file.
  lemma FlowLeaves(w: World, feed: string, n: nat)
    requires Inv(w)
    ensures var w' := Step(w, Flow(feed, n));
            if feed !in w.shards then w' == w
            else
              var (shard, key) := (w.shards[feed], w.shards[feed].key);
              var k := if n < |shard.buffered| then n else |shard.buffered|;
              && w'.sessions == w.sessions && w'.remote == w.remote
              && w'.shards == w.shards[feed := shard.(buffered := shard.buffered[k..])]
              && OnDisk(w'.disk, key) == OnDisk(w.disk, key) + shard.buffered[..k]
              && forall path | path != Partial(key) :: SameFile(w.disk, w'.disk, path)
  {
    hide Inv;
  }

  // -- A run in which nothing fails --------------------------------------------------------------

  ghost predicate NothingFails(e: Event) {
    match e
    case Write(_, _, outcome, opening, acknowledged) => outcome.Finalised? && opening == Opened && acknowledged
    case Flow(_, _) => true
    case CloseAll(_, outcomes) => forall feed :: outcomes(feed).Finalised?
    case Restart(_) => false
  }

  ghost predicate IsOpen(w: World, s: nat) {
    exists feed | feed in w.shards :: w.shards[feed].session == s
  }

  ghost predicate IsReplayed(w: World, s: nat)
    requires s < |w.sessions|
  {
    Shard(w, w.sessions[s].key) == [Member(s, w.sessions[s].acked, true)]
  }

  // Each stream of this run is still open, or is replayed in full.
  ghost predicate Accounted(w: World) {
    forall s | 0 <= s < |w.sessions| && w.sessions[s].run == w.run :: IsOpen(w, s) || IsReplayed(w, s)
  }

  // This run was told that the record is kept.
  ghost predicate KeptByRun(w: World, record: Record) {
    exists s | 0 <= s < |w.sessions| :: w.sessions[s].run == w.run && record in w.sessions[s].acked
  }

  ghost predicate KeepsRun(w: World, w': World) {
    w'.run == w.run && forall record | KeptByRun(w, record) :: KeptByRun(w', record)
  }

  lemma MoreStreams(w: World, w': World)
    requires w'.run == w.run && |w.sessions| <= |w'.sessions|
    requires forall s | 0 <= s < |w.sessions| ::
               w'.sessions[s].run == w.sessions[s].run && w.sessions[s].acked <= w'.sessions[s].acked
    ensures KeepsRun(w, w')
  {
    forall record | KeptByRun(w, record)
      ensures KeptByRun(w', record)
    {
      var s :| 0 <= s < |w.sessions| && w.sessions[s].run == w.run && record in w.sessions[s].acked;
      assert record in w'.sessions[s].acked;
    }
  }

  lemma StreamAfterClosing(w: World, w': World, feed: string, s: nat)
    requires OneStreamPerHour(w) && Accounted(w) && feed in w.shards && OnlyCloses(w, w', feed)
    requires s < |w.sessions| && w.sessions[s].run == w.run
    requires var t := w.shards[feed].session;
             t < |w.sessions| && w.sessions[t].run == w.run && w.sessions[t].key == w.shards[feed].key
             && IsReplayed(w', t)
    ensures IsOpen(w', s) || IsReplayed(w', s)
  {
    var t := w.shards[feed].session;
    if s != t {
      var key := w.sessions[s].key;
      assert key != w.sessions[t].key;
      assert SameFile(w.disk, w'.disk, Final(key)) && SameObject(w.remote, w'.remote, key);
      if IsOpen(w, s) {
        var other :| other in w.shards && w.shards[other].session == s;
        assert other in w'.shards;
      }
    }
  }

  lemma ClosingIsAccounted(w: World, feed: string, upload: Upload)
    requires Inv(w) && OneStreamPerHour(w) && Accounted(w) && feed in w.shards
    ensures Accounted(CloseOne(w, feed, Finalised(upload)))
  {
    FinalisingLeaves(w, feed, upload);
    ClosedShardIsReplayed(w, feed, upload);
    OpenSession(w, feed);
    hide Inv, CloseOne;
    var w' := CloseOne(w, feed, Finalised(upload));
    forall s | 0 <= s < |w'.sessions| && w'.sessions[s].run == w'.run
      ensures IsOpen(w', s) || IsReplayed(w', s)
    {
      StreamAfterClosing(w, w', feed, s);
    }
  }

  lemma NothingToClose(w: World, feed: string, outcome: Outcome)
    requires feed !in w.shards
    ensures CloseOne(w, feed, outcome) == w
  {
  }

  lemma {:induction false} ClosingEachIsAccounted(w: World, order: seq<string>, outcomes: string -> Outcome)
    requires Inv(w) && OneStreamPerHour(w) && Accounted(w) && forall feed :: outcomes(feed).Finalised?
    ensures Accounted(CloseEach(w, order, outcomes))
  {
    if order != [] {
      hide Inv, OneStreamPerHour, Accounted, CloseOne;
      var n := |order| - 1;
      var before := CloseEach(w, order[..n], outcomes);
      CloseEachKeepsInv(w, order[..n], outcomes);
      CloseKeepsOneStream(w, order[..n], outcomes);
      ClosingEachIsAccounted(w, order[..n], outcomes);
      if order[n] in before.shards {
        ClosingIsAccounted(before, order[n], outcomes(order[n]).upload);
      } else {
        assert CloseOne(before, order[n], outcomes(order[n])) == before by {
          NothingToClose(before, order[n], outcomes(order[n]));
        }
      }
    }
  }

  // A new stream is open, and the others are where they were.
  lemma OpeningIsAccounted(w: World, w': World, feed: string, session: Session)
    requires Accounted(w) && feed !in w.shards && w'.run == w.run
    requires w'.sessions == w.sessions + [session] && feed in w'.shards && w'.shards[feed].session == |w.sessions|
    requires forall other | other in w.shards :: other in w'.shards && w'.shards[other] == w.shards[other]
    requires forall key :: SameFile(w.disk, w'.disk, Final(key)) && SameObject(w.remote, w'.remote, key)
    ensures Accounted(w')
  {
    forall s | 0 <= s < |w'.sessions| && w'.sessions[s].run == w'.run
      ensures IsOpen(w', s) || IsReplayed(w', s)
    {
      if s < |w.sessions| && IsOpen(w, s) {
        var other :| other in w.shards && w.shards[other].session == s;
        assert other in w'.shards;
      }
    }
  }

  lemma RunOfRotation(w: World, feed: string, hour: int, stamp: int, outcome: Outcome)
    ensures ShardFor(w, feed, hour, stamp, outcome, Opened).run == w.run
    ensures feed !in w.shards ==> CloseOne(w, feed, outcome) == w
  {
  }

  lemma ClosedFirst(w: World, feed: string, outcome: Outcome)
    requires Inv(w) && OneStreamPerHour(w) && Accounted(w) && outcome.Finalised?
    ensures var closed := CloseOne(w, feed, outcome);
            && Accounted(closed) && closed.run == w.run && closed.sessions == w.sessions && feed !in closed.shards
            && closed.compression == w.compression
  {
    hide Inv, CloseOne, OneStreamPerHour, Accounted;
    if feed in w.shards {
      ClosingIsAccounted(w, feed, outcome.upload);
      FinalisingLeaves(w, feed, outcome.upload);
    } else {
      NothingToClose(w, feed, outcome);
    }
  }

  lemma RotationIsAccounted(w: World, feed: string, hour: int, stamp: int, outcome: Outcome)
    requires Inv(w) && OneStreamPerHour(w) && Accounted(w) && outcome.Finalised?
    ensures var w' := ShardFor(w, feed, hour, stamp, outcome, Opened);
            Accounted(w') && feed in w'.shards && KeepsRun(w, w')
  {
    hide Inv, ShardFor, CloseOne, OneStreamPerHour, Accounted, KeepsRun;
    RotationLeaves(w, feed, hour, stamp, outcome, Opened);
    RunOfRotation(w, feed, hour, stamp, outcome);
    ClosedFirst(w, feed, outcome);
    var (w', closed) := (ShardFor(w, feed, hour, stamp, outcome, Opened), CloseOne(w, feed, outcome));
    if feed !in w.shards || w.shards[feed].key.hour != hour {
      var key := ShardKey(feed, hour, w.compression);
      assert forall other | other in closed.shards :: other != feed;
      OpeningIsAccounted(closed, w', feed, Session(key, closed.run, []));
    }
    MoreStreams(w, w');
  }

  // Adding to an open stream changes neither the files nor which streams are open.
  lemma AddingIsAccounted(w: World, w': World, s: nat)
    requires Accounted(w) && IsOpen(w, s) && s < |w.sessions| == |w'.sessions| && w'.run == w.run
    requires w'.disk == w.disk && w'.remote == w.remote && forall t :: IsOpen(w, t) ==> IsOpen(w', t)
    requires forall t | 0 <= t < |w.sessions| && t != s :: w'.sessions[t] == w.sessions[t]
    ensures Accounted(w')
  {
    hide IsOpen;
  }

  lemma AcceptKeepsOpen(w: World, record: Record, t: nat)
    requires record.feed in w.shards && w.shards[record.feed].session < |w.sessions| && IsOpen(w, t)
    ensures IsOpen(Accept(w, record), t)
  {
    var w' := Accept(w, record);
    var feed :| feed in w.shards && w.shards[feed].session == t;
    assert feed in w'.shards && w'.shards[feed].session == t;
  }

  lemma AcceptIsAccounted(w: World, record: Record)
    requires Inv(w) && Accounted(w) && record.feed in w.shards
    ensures w.shards[record.feed].session < |w.sessions|
    ensures Accounted(Accept(w, record)) && KeepsRun(w, Accept(w, record)) && KeptByRun(Accept(w, record), record)
  {
    hide Inv, Accounted, KeepsRun;
    OpenSession(w, record.feed);
    var (s, w') := (w.shards[record.feed].session, Accept(w, record));
    forall t | IsOpen(w, t)
      ensures IsOpen(w', t)
    {
      AcceptKeepsOpen(w, record, t);
    }
    AddingIsAccounted(w, w', s);
    MoreStreams(w, w');
    assert w'.sessions[s].run == w'.run && record in w'.sessions[s].acked;
  }

  lemma FlowIsAccounted(w: World, feed: string, n: nat)
    requires Inv(w) && Accounted(w)
    ensures Accounted(Drain(w, feed, n)) && KeepsRun(w, Drain(w, feed, n))
  {
    hide Inv;
    var w' := Drain(w, feed, n);
    MoreStreams(w, w');
    forall s | 0 <= s < |w'.sessions| && w'.sessions[s].run == w'.run
      ensures IsOpen(w', s) || IsReplayed(w', s)
    {
      if IsOpen(w, s) {
        var other :| other in w.shards && w.shards[other].session == s;
        assert other in w'.shards && w'.shards[other].session == s;
      }
    }
  }

  lemma KeptFurther(a: World, b: World, c: World)
    requires KeepsRun(a, b) && KeepsRun(b, c)
    ensures KeepsRun(a, c)
  {
    hide KeptByRun;
  }

  lemma StepIsAccounted(w: World, e: Event)
    requires Inv(w) && OneStreamPerHour(w) && ClockForward(w, e) && Accounted(w) && NothingFails(e)
    ensures Accounted(Step(w, e)) && KeepsRun(w, Step(w, e))
    ensures e.Write? ==> KeptByRun(Step(w, e), e.record)
  {
    hide Inv, OneStreamPerHour, Accounted, KeepsRun, KeptByRun, ShardFor, Drain, CloseEach, Accept;
    match e
    case Write(record, stamp, outcome, opening, acknowledged) =>
      var hour := HourOf(record.fetchedAtMs);
      var ready := ShardFor(w, record.feed, hour, stamp, outcome, opening);
      ShardForKeepsInv(w, record.feed, hour, stamp, outcome, opening);
      RotationIsAccounted(w, record.feed, hour, stamp, outcome);
      AcceptIsAccounted(ready, record);
      KeptFurther(w, ready, Accept(ready, record));
    case Flow(feed, n) => FlowIsAccounted(w, feed, n);
    case CloseAll(order, outcomes) =>
      ClosingEachIsAccounted(w, order, outcomes);
      CloseEachKeepsSessions(w, order, outcomes);
      MoreStreams(w, CloseEach(w, order, outcomes));
  }

  // The writes of a run.
  ghost predicate IsWritten(events: seq<Event>, record: Record) {
    exists i | 0 <= i < |events| :: events[i].Write? && events[i].record == record
  }

  lemma {:induction false} RunIsAccounted(w: World, events: seq<Event>)
    requires Inv(w) && OneStreamPerHour(w) && ForwardRun(w, events) && Accounted(w)
    requires forall e | e in events :: NothingFails(e)
    ensures Accounted(Run(w, events)) && Run(w, events).run == w.run
    ensures forall record | IsWritten(events, record) :: KeptByRun(Run(w, events), record)
    decreases |events|
  {
    hide Inv, OneStreamPerHour, Accounted, KeptByRun, Step, ClockForward, NothingFails;
    if events != [] {
      var n := |events| - 1;
      assert events == events[..n] + [events[n]];
      var before := Run(w, events[..n]);
      RunIsAccounted(w, events[..n]);
      RunKeepsOneStream(w, events[..n]);
      StepIsAccounted(before, events[n]);
      forall record | IsWritten(events, record)
        ensures KeptByRun(Run(w, events), record)
      {
        var i :| 0 <= i < |events| && events[i].Write? && events[i].record == record;
        assert i < n ==> events[..n][i] == events[i];
      }
    }
  }

  // A process starts with no stream of its own.
  ghost predicate IsFresh(w: World) {
    w.shards == map[] && forall s | 0 <= s < |w.sessions| :: w.sessions[s].run != w.run
  }

  lemma InvOwns(w: World)
    requires Inv(w)
    ensures SessionsOwn(w)
  {
  }

  lemma OwnCompression(w: World, s: nat)
    requires OneStreamPerHour(w) && s < |w.sessions| && w.sessions[s].run == w.run
    ensures w.sessions[s].key.compression == w.compression
  {
  }

  lemma StepKeepsCompression(w: World, e: Event)
    requires Inv(w) && NothingFails(e)
    ensures Step(w, e).compression == w.compression
  {
    hide Inv, Close;
    match e
    case Write(record, stamp, outcome, opening, _) =>
      if record.feed in w.shards {
        CloseKeepsCompression(w, record.feed, outcome);
      }
    case CloseAll(order, outcomes) => CloseEachKeepsSessions(w, order, outcomes);
    case _ =>
  }

  lemma {:induction false} RunKeepsCompression(w: World, events: seq<Event>)
    requires Inv(w) && forall e | e in events :: NothingFails(e)
    ensures Run(w, events).compression == w.compression
    decreases |events|
  {
    if events != [] {
      hide Inv, Step, NothingFails;
      var n := |events| - 1;
      assert events == events[..n] + [events[n]];
      RunKeepsCompression(w, events[..n]);
      StepKeepsCompression(Run(w, events[..n]), events[n]);
    }
  }

  // A run in which nothing fails, with a clock that does not run back, ending with
  // every shard closed: whatever was on disk before, every record it was given is
  // among those that are replayed.
  lemma CleanRunIsReplayed(w: World, events: seq<Event>, record: Record)
    requires Inv(w) && OneStreamPerHour(w) && IsFresh(w) && ForwardRun(w, events)
    requires forall e | e in events :: NothingFails(e)
    requires Run(w, events).shards == map[] && IsWritten(events, record)
    ensures var key := ShardKey(record.feed, HourOf(record.fetchedAtMs), w.compression);
            Recovered(Run(w, events), [key], record)
  {
    hide Inv, OneStreamPerHour, Run, ForwardRun, NothingFails, IsWritten, Shard;
    assert Accounted(w);
    RunIsAccounted(w, events);
    RunKeepsOneStream(w, events);
    var w' := Run(w, events);
    var s :| 0 <= s < |w'.sessions| && w'.sessions[s].run == w'.run && record in w'.sessions[s].acked;
    assert !IsOpen(w', s);
    assert SessionsOwn(w') by { InvOwns(w'); }
    RunKeepsCompression(w, events);
    assert w'.sessions[s].key.compression == w'.compression by { OwnCompression(w', s); }
    var key := ShardKey(record.feed, HourOf(record.fetchedAtMs), w.compression);
    assert w'.sessions[s].key == key;
    assert key in [key] && Shard(w', key) == [Member(s, w'.sessions[s].acked, true)];
  }
}
