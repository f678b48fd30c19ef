// The class of src/archive/archive.ts, as it runs: fields updated in place, one
// file-system call at a time. Each method is proved against the step functions
// of Archive, whose runs carry the guarantees.
module HourlyArchive {
  import opened Wrappers
  import opened Archive

  lemma OneMore(w: World, order: seq<string>, feed: string, outcomes: string -> Outcome)
    ensures CloseEach(w, order + [feed], outcomes) == CloseOne(CloseEach(w, order, outcomes), feed, outcomes(feed))
  {
    hide CloseOne;
    assert (order + [feed])[..|order|] == order;
  }

  // Closing one of the shards copied out of the map, the map itself now empty.
  lemma ClosingCopied(w: World, feed: string, outcome: Outcome)
    requires Inv(w) && feed in w.shards
    ensures Inv(w.(shards := map[])) && Detached(w.(shards := map[]), w.shards[feed])
    ensures CloseOne(w, feed, outcome) ==
            Close(w.(shards := map[]), w.shards[feed], outcome).(shards := w.shards - {feed})
    ensures Inv(CloseOne(w, feed, outcome))
  {
    AllDetached(w, feed);
    CloseOneKeepsInv(w, feed, outcome);
    hide Inv, Detached;
    CloseIgnoresShards(Detach(w, feed), map[], w.shards[feed], outcome);
    CloseKeepsSessions(Detach(w, feed), w.shards[feed], outcome);
    hide Close;
  }

  class HourlyNdjsonArchive {
    // The process's own state.
    var compression: Compression
    var shards: map<string, OpenShard>
    // What it acts on: the directory and the object store.
    var disk: Disk
    var remote: map<ShardKey, File>
    // History, for the specification.
    ghost var run: nat
    ghost var sessions: seq<Session>
    // The number the next stream is given.
    var nextSession: nat

    ghost function State(): World
      reads this
    {
      World(disk, remote, shards, compression, run, sessions)
    }

    ghost predicate Valid()
      reads this
    {
      Inv(State()) && nextSession == |sessions|
    }

    // A process starting over what earlier runs left on disk.
    constructor (before: World, compression: Compression, nextSession: nat)
      requires Inv(before) && nextSession == |before.sessions|
      ensures Valid() && State() == Crash(before, compression)
    {
      this.compression := compression;
      shards := map[];
      disk, remote := before.disk, before.remote;
      run, sessions := before.run + 1, before.sessions;
      this.nextSession := nextSession;
      new;
      CrashKeepsInv(before, compression);
    }

    method CloseShard(shard: OpenShard, outcome: Outcome)
      requires Valid() && Detached(State(), shard)
      modifies this`disk, this`remote
      ensures Valid() && State() == Close(old(State()), shard, outcome)
    {
      hide Inv;
      CloseKeepsInv(State(), shard, outcome);
      var partial, final := Partial(shard.key), Final(shard.key);
      var written := disk[partial][0].records;
      // compressor.end(), and the file's "close" or "error"
      if outcome.FlushFailed? {
        disk := disk[partial := [Member(shard.session, written + Prefix(shard.buffered, outcome.drained), false)]];
        return;
      }
      disk := disk[partial := [Member(shard.session, written + shard.buffered, true)]];
      if outcome.RenameFailed? {
        return;
      }
      disk := (disk - {partial})[final := disk[partial]];
      if outcome.upload.Uploaded? {
        remote := remote[shard.key := disk[final]];
        if outcome.upload.unlinked {
          disk := disk - {final};
        }
      }
    }

    // None if the directory or the move aside failed: then the feed is left
    // without a shard.
    method ShardFor(feed: string, hour: int, stamp: int, outcome: Outcome, opening: Opening)
      returns (shard: Option<OpenShard>)
      requires Valid()
      modifies this
      ensures Valid() && State() == Archive.ShardFor(old(State()), feed, hour, stamp, outcome, opening)
      ensures shard.Some? <==> feed in shards
      ensures shard.Some? ==> shards[feed] == shard.value && shard.value.key.hour == hour
    {
      hide Inv, Close, ShardsFaithful, DiskFaithful, SessionsApart;
      ShardForKeepsInv(State(), feed, hour, stamp, outcome, opening);
      if feed in shards && shards[feed].key.hour == hour {
        return Some(shards[feed]);
      }
      if feed in shards {
        var existing := shards[feed];
        DetachKeepsInv(State(), feed);
        shards := shards - {feed};
        CloseShard(existing, outcome);
      }
      var key := ShardKey(feed, hour, compression);
      if opening == MkdirFailed {
        return None;
      }
      if Partial(key) in disk {
        if opening == SetAsideFailed {
          return None;
        }
        disk := (disk - {Partial(key)})[Salvaged(key, stamp) := disk[Partial(key)]];
      }
      shard := Some(OpenShard(key, nextSession, [], 0));
      disk := disk[Partial(key) := [Member(nextSession, [], false)]];
      shards := shards[feed := shard.value];
      nextSession := nextSession + 1;
      sessions := sessions + [Session(key, run, [])];
    }

    method Write(record: Record, stamp: int, outcome: Outcome, opening: Opening, acknowledged: bool)
      returns (written: bool)
      requires Valid()
      modifies this
      ensures Valid() && State() == Step(old(State()), Event.Write(record, stamp, outcome, opening, acknowledged))
      ensures written <==> acknowledged && record.feed in shards
    {
      hide Inv, Archive.ShardFor;
      var found := ShardFor(record.feed, HourOf(record.fetchedAtMs), stamp, outcome, opening);
      if found.None? {
        return false;
      }
      var shard := found.value;
      AcceptKeepsInv(State(), record);
      if acknowledged {
        shards := shards[record.feed := shard.(buffered := shard.buffered + [record], lines := shard.lines + 1)];
        sessions :=
          sessions[shard.session := sessions[shard.session].(acked := sessions[shard.session].acked + [record])];
      }
      return acknowledged;
    }

    // After this no shard is open.
    method CloseAll(outcomes: string -> Outcome) returns (ghost order: seq<string>)
      requires Valid()
      modifies this
      ensures Valid() && State() == Step(old(State()), Event.CloseAll(order, outcomes))
      ensures shards == map[] && forall feed | feed in old(shards) :: feed in order
    {
      hide Inv, Close, CloseOne;
      var open := shards;
      ghost var start := State();
      shards := map[];
      order := [];
      assert start.(shards := open) == start;
      while open.Keys != {}
        invariant Inv(State().(shards := open)) && shards == map[] && nextSession == |sessions|
        invariant State().(shards := open) == CloseEach(start, order, outcomes)
        invariant forall feed | feed in start.shards :: feed in open || feed in order
        decreases open.Keys
      {
        hide Inv, Detached, CloseEach;
        var feed :| feed in open.Keys;
        var shard := open[feed];
        ghost var now := State().(shards := open);
        ClosingCopied(now, feed, outcomes(feed));
        CloseShard(shard, outcomes(feed));
        open := open - {feed};
        OneMore(start, order, feed, outcomes);
        order := order + [feed];
      }
      assert open == map[] && State().(shards := open) == State();
    }
  }
}
