// The hourly archive and the files it leaves on disk: src/archive/archive.ts.
//
// A compressed stream is a member: the records it holds and whether its end has
// been written. A file is the list of members it contains. Every stream ever
// opened has a session number, so that the records a file holds can be compared
// with the records that were written to the stream.
module Archive {
  const HOUR_MS: int := 3_600_000

  datatype Record = Record(feed: string, fetchedAtMs: int, payload: seq<int>)

  // hourKeyOf, as an hour number.
  function HourOf(ms: int): (hour: int)
    ensures hour * 3_600_000 <= ms < (hour + 1) * 3_600_000
  {
    ms / HOUR_MS
  }

  datatype Compression = Gzip | Brotli

  // feed/YYYY-MM-DD/YYYY-MM-DDTHH.ndjson.gz, by its parts. The date is a
  // function of the hour.
  datatype ShardKey = ShardKey(feed: string, hour: int, compression: Compression)

  // The name a finished shard has, the name it has while it is written, and the
  // name an abandoned one is moved to.
  datatype Path = Final(key: ShardKey) | Partial(key: ShardKey) | Salvaged(key: ShardKey, stamp: int)

  datatype Member = Member(session: nat, records: seq<Record>, complete: bool)

  type File = seq<Member>

  type Disk = map<Path, File>

  // An open shard: the stream's session, and the records its compressor has
  // accepted that are not yet on disk.
  datatype OpenShard = OpenShard(key: ShardKey, session: nat, buffered: seq<Record>, lines: nat)

  // How closing a shard turns out. When the flush fails, some of what was
  // buffered may have reached the file.
  datatype Upload = NoUploader | UploadFailed | Uploaded(unlinked: bool)
  datatype Outcome = FlushFailed(drained: nat) | RenameFailed | Finalised(upload: Upload)

  // How opening a stream turns out: the directory or the move of an abandoned
  // file may fail, and then the write that needed the stream fails.
  datatype Opening = MkdirFailed | SetAsideFailed | Opened

  // A stream that has been opened: its shard, the run that opened it, and the
  // records acknowledged to its writers.
  datatype Session = Session(key: ShardKey, run: nat, acked: seq<Record>)

  // The whole of what the archive can reach: disk, object store, the process's
  // open shards, and the history of streams.
  datatype World = World(
    disk: Disk, remote: map<ShardKey, File>, shards: map<string, OpenShard>,
    compression: Compression, run: nat, sessions: seq<Session>)

  // -- Steps -------------------------------------------------------------------------

  function Prefix<T>(s: seq<T>, n: nat): (prefix: seq<T>)
    ensures prefix <= s && |prefix| == if n < |s| then n else |s|
  {
    if n <= |s| then s[..n] else s
  }

  // The records in the file being written.
  function OnDisk(disk: Disk, key: ShardKey): seq<Record> {
    if Partial(key) in disk && |disk[Partial(key)]| == 1 then disk[Partial(key)][0].records else []
  }

  // The stream's file once more of it has reached disk; `complete` when its end
  // has too.
  function Settle(w: World, shard: OpenShard, part: seq<Record>, complete: bool): World {
    w.(disk := w.disk[Partial(shard.key) := [Member(shard.session, OnDisk(w.disk, shard.key) + part, complete)]])
  }

  // rename(path, finalPath), which replaces any file of that name.
  function Rename(w: World, from: Path, to: Path): World
    requires from in w.disk
  {
    w.(disk := (w.disk - {from})[to := w.disk[from]])
  }

  // A successful upload, and the unlink that may follow it.
  function Store(w: World, key: ShardKey, unlinked: bool): World
    requires Final(key) in w.disk
  {
    w.(remote := w.remote[key := w.disk[Final(key)]], disk := if unlinked then w.disk - {Final(key)} else w.disk)
  }

  // #closeShard, of a shard already taken out of the map.
  function Close(w: World, shard: OpenShard, outcome: Outcome): World {
    match outcome
    case FlushFailed(drained) => Settle(w, shard, Prefix(shard.buffered, drained), false)
    case RenameFailed => Settle(w, shard, shard.buffered, true)
    case Finalised(upload) =>
      var finished := Rename(Settle(w, shard, shard.buffered, true), Partial(shard.key), Final(shard.key));
      match upload
      case NoUploader => finished
      case UploadFailed => finished
      case Uploaded(unlinked) => Store(finished, shard.key, unlinked)
  }

  function Detach(w: World, feed: string): World {
    w.(shards := w.shards - {feed})
  }

  // Opening a stream: an existing .partial is moved aside, never appended to.
  function SetAside(w: World, key: ShardKey, stamp: int): World {
    if Partial(key) in w.disk then Rename(w, Partial(key), Salvaged(key, stamp)) else w
  }

  function Create(w: World, feed: string, key: ShardKey): World {
    var session := |w.sessions|;
    w.(disk := w.disk[Partial(key) := [Member(session, [], false)]],
       shards := w.shards[feed := OpenShard(key, session, [], 0)],
       sessions := w.sessions + [Session(key, w.run, [])])
  }

  function Open(w: World, feed: string, hour: int, stamp: int): World {
    var key := ShardKey(feed, hour, w.compression);
    Create(SetAside(w, key, stamp), feed, key)
  }

  predicate Opens(w: World, feed: string, hour: int, opening: Opening) {
    opening == Opened
    || (opening == SetAsideFailed && Partial(ShardKey(feed, hour, w.compression)) !in w.disk)
  }

  predicate Current(w: World, feed: string, hour: int) {
    feed in w.shards && w.shards[feed].key.hour == hour
  }

  function CloseOne(w: World, feed: string, outcome: Outcome): World {
    if feed in w.shards then Close(Detach(w, feed), w.shards[feed], outcome) else w
  }

  // #shardFor, which may leave the feed without a shard.
  function ShardFor(w: World, feed: string, hour: int, stamp: int, outcome: Outcome, opening: Opening): World {
    if Current(w, feed, hour) then w
    else
      var closed := CloseOne(w, feed, outcome);
      if Opens(closed, feed, hour, opening) then Open(closed, feed, hour, stamp) else closed
  }

  // compressor.write(line), acknowledged.
  function Accept(w: World, record: Record): World
    requires record.feed in w.shards && w.shards[record.feed].session < |w.sessions|
  {
    var shard := w.shards[record.feed];
    var session := w.sessions[shard.session];
    w.(shards := w.shards[record.feed := shard.(buffered := shard.buffered + [record], lines := shard.lines + 1)],
       sessions := w.sessions[shard.session := session.(acked := session.acked + [record])])
  }

  // The piped stream puts some of what is buffered into the file.
  function Drain(w: World, feed: string, n: nat): World {
    if feed !in w.shards then w
    else
      var shard := w.shards[feed];
      var drained := Prefix(shard.buffered, n);
      Settle(w, shard, drained, false).(
        shards := w.shards[feed := shard.(buffered := shard.buffered[|drained|..])])
  }

  // The process dies: its shards, and what they had buffered, are gone. The next
  // run may be configured with the other compression.
  function Crash(w: World, compression: Compression): World {
    w.(shards := map[], compression := compression, run := w.run + 1)
  }

  // Shutdown: each open shard is closed in turn.
  function CloseEach(w: World, order: seq<string>, outcomes: string -> Outcome): World {
    if order == [] then w
    else
      var feed := order[|order| - 1];
      CloseOne(CloseEach(w, order[..|order| - 1], outcomes), feed, outcomes(feed))
  }

  // -- What every step keeps ------------------------------------------------------------

  // A file is one member. Its records are those acknowledged to its session: all
  // of them if its end was written, otherwise the first so many.
  ghost predicate Faithful(w: World, file: File, key: ShardKey) {
    && |file| == 1 && file[0].session < |w.sessions|
    && w.sessions[file[0].session].key == key
    && if file[0].complete then file[0].records == w.sessions[file[0].session].acked
       else file[0].records <= w.sessions[file[0].session].acked
  }

  ghost predicate DiskFaithful(w: World) {
    forall p | p in w.disk :: Faithful(w, w.disk[p], p.key) && (p.Final? ==> w.disk[p][0].complete)
  }

  // No session is in two files.
  ghost predicate SessionsApart(w: World) {
    forall p, q | p in w.disk && q in w.disk && w.disk[p] != [] && w.disk[q] != []
      && w.disk[p][0].session == w.disk[q][0].session :: p == q
  }

  ghost predicate RemoteFaithful(w: World) {
    forall k | k in w.remote :: Faithful(w, w.remote[k], k) && w.remote[k][0].complete
  }

  // What is on disk and what is buffered make up what was acknowledged.
  ghost predicate OpenFaithfully(w: World, shard: OpenShard) {
    && shard.session < |w.sessions|
    && w.sessions[shard.session].key == shard.key && w.sessions[shard.session].run == w.run
    && Partial(shard.key) in w.disk
    && w.disk[Partial(shard.key)] == [Member(shard.session, OnDisk(w.disk, shard.key), false)]
    && OnDisk(w.disk, shard.key) + shard.buffered == w.sessions[shard.session].acked
    && forall k | k in w.remote && w.remote[k] != [] :: w.remote[k][0].session != shard.session
  }

  ghost predicate ShardsFaithful(w: World) {
    forall feed | feed in w.shards ::
      w.shards[feed].key.feed == feed && w.shards[feed].key.compression == w.compression
      && OpenFaithfully(w, w.shards[feed])
  }

  ghost predicate SessionsOwn(w: World) {
    forall s | 0 <= s < |w.sessions| ::
      w.sessions[s].run <= w.run
      && forall record | record in w.sessions[s].acked ::
           record.feed == w.sessions[s].key.feed && HourOf(record.fetchedAtMs) == w.sessions[s].key.hour
  }

  ghost predicate Inv(w: World) {
    DiskFaithful(w) && SessionsApart(w) && RemoteFaithful(w) && ShardsFaithful(w) && SessionsOwn(w)
  }

  // A shard that is being closed: out of the map, its file still its own.
  ghost predicate Detached(w: World, shard: OpenShard) {
    shard.key.feed !in w.shards && OpenFaithfully(w, shard)
  }

  lemma DetachKeepsInv(w: World, feed: string)
    requires Inv(w) && feed in w.shards
    ensures Inv(Detach(w, feed)) && Detached(Detach(w, feed), w.shards[feed])
  {
    assert OpenFaithfully(w, w.shards[feed]);
    var w' := Detach(w, feed);
    forall other | other in w'.shards
      ensures OpenFaithfully(w', w'.shards[other])
    {
      assert OpenFaithfully(w, w.shards[other]);
    }
  }

  // A step that leaves the shards and their files alone keeps them faithful.
  lemma OtherShards(w: World, w': World, key: ShardKey)
    requires ShardsFaithful(w) && key.feed !in w.shards
    requires w'.shards == w.shards && w'.compression == w.compression && w'.run == w.run && w'.sessions == w.sessions
    requires forall p: Path | p.key != key ::
             (p in w'.disk <==> p in w.disk) && (p in w.disk ==> w'.disk[p] == w.disk[p])
    requires forall k | k in w'.remote && k != key :: k in w.remote && w'.remote[k] == w.remote[k]
    requires key in w'.remote ==> Faithful(w', w'.remote[key], key)
    ensures ShardsFaithful(w')
  {
    forall feed | feed in w'.shards
      ensures w'.shards[feed].key.feed == feed && w'.shards[feed].key.compression == w'.compression
      ensures OpenFaithfully(w', w'.shards[feed])
    {
      var shard := w.shards[feed];
      assert OpenFaithfully(w, shard) && shard.key != key;
      assert Partial(shard.key) in w'.disk && w'.disk[Partial(shard.key)] == w.disk[Partial(shard.key)];
    }
  }

  lemma SettleKeepsDisk(w: World, shard: OpenShard, part: seq<Record>, complete: bool)
    requires DiskFaithful(w) && SessionsApart(w) && OpenFaithfully(w, shard)
    requires part <= shard.buffered && (complete ==> part == shard.buffered)
    ensures var w' := Settle(w, shard, part, complete);
            DiskFaithful(w') && SessionsApart(w')
  {
  }

  lemma SettleKeepsInv(w: World, shard: OpenShard, part: seq<Record>, complete: bool)
    requires Inv(w) && Detached(w, shard) && part <= shard.buffered && (complete ==> part == shard.buffered)
    ensures Inv(Settle(w, shard, part, complete))
  {
    hide ShardsFaithful, DiskFaithful, SessionsApart;
    var w' := Settle(w, shard, part, complete);
    OtherShards(w, w', shard.key);
    SettleKeepsDisk(w, shard, part, complete);
  }

  lemma SameSessions(w: World, w': World)
    requires SessionsOwn(w) && w'.sessions == w.sessions && w'.run == w.run
    ensures SessionsOwn(w')
  {
  }

  lemma RenameKeepsInv(w: World, from: Path, to: Path)
    requires Inv(w) && from in w.disk && from != to && from.key == to.key && from.key.feed !in w.shards
    requires to.Final? ==> w.disk[from] != [] && w.disk[from][0].complete
    ensures Inv(Rename(w, from, to))
  {
    hide ShardsFaithful, SessionsOwn;
    OtherShards(w, Rename(w, from, to), from.key);
    SameSessions(w, Rename(w, from, to));
  }

  lemma StoreKeepsInv(w: World, key: ShardKey, unlinked: bool)
    requires Inv(w) && Final(key) in w.disk && key.feed !in w.shards
    ensures Inv(Store(w, key, unlinked))
  {
    hide ShardsFaithful, SessionsOwn;
    OtherShards(w, Store(w, key, unlinked), key);
    SameSessions(w, Store(w, key, unlinked));
  }

  lemma FinishKeepsInv(w: World, key: ShardKey, upload: Upload)
    requires Inv(w) && key.feed !in w.shards
    requires Partial(key) in w.disk && w.disk[Partial(key)] != [] && w.disk[Partial(key)][0].complete
    ensures Inv(Rename(w, Partial(key), Final(key)))
    ensures upload.Uploaded? ==> Inv(Store(Rename(w, Partial(key), Final(key)), key, upload.unlinked))
  {
    hide Inv;
    RenameKeepsInv(w, Partial(key), Final(key));
    if upload.Uploaded? {
      StoreKeepsInv(Rename(w, Partial(key), Final(key)), key, upload.unlinked);
    }
  }

  lemma CloseKeepsInv(w: World, shard: OpenShard, outcome: Outcome)
    requires Inv(w) && Detached(w, shard)
    ensures Inv(Close(w, shard, outcome)) && Close(w, shard, outcome).shards == w.shards
  {
    hide Inv, OpenFaithfully;
    match outcome
    case FlushFailed(drained) =>
      SettleKeepsInv(w, shard, Prefix(shard.buffered, drained), false);
    case RenameFailed =>
      SettleKeepsInv(w, shard, shard.buffered, true);
    case Finalised(upload) =>
      SettleKeepsInv(w, shard, shard.buffered, true);
      FinishKeepsInv(Settle(w, shard, shard.buffered, true), shard.key, upload);
  }

  lemma CreateKeepsShards(w: World, feed: string, key: ShardKey)
    requires Inv(w) && feed == key.feed && key.compression == w.compression && feed !in w.shards
    ensures ShardsFaithful(Create(w, feed, key))
  {
    var w' := Create(w, feed, key);
    forall other | other in w'.shards
      ensures w'.shards[other].key.feed == other && w'.shards[other].key.compression == w'.compression
      ensures OpenFaithfully(w', w'.shards[other])
    {
      if other != feed {
        assert OpenFaithfully(w, w.shards[other]);
        assert Partial(w.shards[other].key) in w'.disk;
      }
    }
  }

  lemma CreateKeepsDisk(w: World, feed: string, key: ShardKey)
    requires DiskFaithful(w) && SessionsApart(w) && Partial(key) !in w.disk
    ensures DiskFaithful(Create(w, feed, key)) && SessionsApart(Create(w, feed, key))
  {
    var w' := Create(w, feed, key);
    assert forall s | 0 <= s < |w.sessions| :: w'.sessions[s] == w.sessions[s];
    assert forall p | p in w'.disk :: p == Partial(key) || p in w.disk;
  }

  lemma CreateKeepsInv(w: World, feed: string, key: ShardKey)
    requires Inv(w) && feed == key.feed && key.compression == w.compression
    requires feed !in w.shards && Partial(key) !in w.disk
    ensures Inv(Create(w, feed, key))
  {
    CreateKeepsShards(w, feed, key);
    CreateKeepsDisk(w, feed, key);
    hide ShardsFaithful, DiskFaithful, SessionsApart;
    var w' := Create(w, feed, key);
    assert forall s | 0 <= s < |w.sessions| :: w'.sessions[s] == w.sessions[s];
  }

  lemma OpenKeepsInv(w: World, feed: string, hour: int, stamp: int)
    requires Inv(w) && feed !in w.shards
    ensures Inv(Open(w, feed, hour, stamp))
  {
    hide Inv;
    var key := ShardKey(feed, hour, w.compression);
    if Partial(key) in w.disk {
      RenameKeepsInv(w, Partial(key), Salvaged(key, stamp));
    }
    CreateKeepsInv(SetAside(w, key, stamp), feed, key);
  }

  lemma CloseOneKeepsInv(w: World, feed: string, outcome: Outcome)
    requires Inv(w)
    ensures Inv(CloseOne(w, feed, outcome)) && CloseOne(w, feed, outcome).shards == w.shards - {feed}
  {
    if feed in w.shards {
      hide Inv;
      DetachKeepsInv(w, feed);
      CloseKeepsInv(Detach(w, feed), w.shards[feed], outcome);
    }
  }

  lemma OpenHasShard(w: World, feed: string, hour: int, stamp: int)
    ensures feed in Open(w, feed, hour, stamp).shards && Open(w, feed, hour, stamp).shards[feed].key.hour == hour
  {
  }

  lemma ShardForKeepsInv(w: World, feed: string, hour: int, stamp: int, outcome: Outcome, opening: Opening)
    requires Inv(w)
    ensures var w' := ShardFor(w, feed, hour, stamp, outcome, opening);
            Inv(w') && (feed in w'.shards ==> w'.shards[feed].key.hour == hour)
  {
    hide Inv, Open, Close;
    if !Current(w, feed, hour) {
      CloseOneKeepsInv(w, feed, outcome);
      OpenKeepsInv(CloseOne(w, feed, outcome), feed, hour, stamp);
      OpenHasShard(CloseOne(w, feed, outcome), feed, hour, stamp);
    }
  }

  lemma AcceptKeepsShards(w: World, record: Record)
    requires Inv(w) && record.feed in w.shards
    ensures w.shards[record.feed].session < |w.sessions| && ShardsFaithful(Accept(w, record))
  {
    var shard := w.shards[record.feed];
    assert OpenFaithfully(w, shard);
    var w' := Accept(w, record);
    forall other | other in w'.shards
      ensures OpenFaithfully(w', w'.shards[other])
    {
      assert OpenFaithfully(w, w.shards[other]);
      assert w.shards[other].session == shard.session ==> w.shards[other].key == shard.key;
    }
  }

  lemma AcceptKeepsInv(w: World, record: Record)
    requires Inv(w) && record.feed in w.shards && w.shards[record.feed].key.hour == HourOf(record.fetchedAtMs)
    ensures w.shards[record.feed].session < |w.sessions| && Inv(Accept(w, record))
  {
    AcceptKeepsShards(w, record);
    var shard := w.shards[record.feed];
    assert OpenFaithfully(w, shard);
    hide ShardsFaithful;
    var w' := Accept(w, record);
    forall p | p in w'.disk
      ensures Faithful(w', w'.disk[p], p.key)
    {
      assert Faithful(w, w.disk[p], p.key);
      if w.disk[p][0].session == shard.session {
        assert p == Partial(shard.key);
      }
    }
    assert RemoteFaithful(w');
  }

  lemma SameFiles(w: World, w': World)
    requires Inv(w) && ShardsFaithful(w')
    requires w'.disk == w.disk && w'.remote == w.remote && w'.sessions == w.sessions && w'.run == w.run
    ensures Inv(w')
  {
    hide ShardsFaithful;
  }

  lemma DrainedShard(w: World, feed: string, n: nat)
    requires feed in w.shards && OpenFaithfully(w, w.shards[feed])
    ensures OpenFaithfully(Drain(w, feed, n), Drain(w, feed, n).shards[feed])
  {
    var shard := w.shards[feed];
    var drained := Prefix(shard.buffered, n);
    assert OnDisk(w.disk, shard.key) + drained + shard.buffered[|drained|..] ==
      OnDisk(w.disk, shard.key) + shard.buffered;
  }

  lemma Reattach(w: World, feed: string, n: nat)
    requires Inv(w) && feed in w.shards
    ensures ShardsFaithful(Drain(w, feed, n))
  {
    var w', shard := Drain(w, feed, n), w.shards[feed];
    assert OpenFaithfully(w, shard);
    DrainedShard(w, feed, n);
    forall other | other in w'.shards
      ensures OpenFaithfully(w', w'.shards[other])
    {
      if other != feed {
        assert OpenFaithfully(w, w.shards[other]) && w.shards[other].key != shard.key;
        assert w'.shards[other] == w.shards[other];
      }
    }
  }

  lemma DrainKeepsInv(w: World, feed: string, n: nat)
    requires Inv(w)
    ensures Inv(Drain(w, feed, n))
  {
    if feed in w.shards {
      assert Prefix(w.shards[feed].buffered, n) <= w.shards[feed].buffered;
      hide Inv, ShardsFaithful, OpenFaithfully;
      var shard := w.shards[feed];
      var drained := Prefix(shard.buffered, n);
      DetachKeepsInv(w, feed);
      SettleKeepsInv(Detach(w, feed), shard, drained, false);
      Reattach(w, feed, n);
      SameFiles(Settle(Detach(w, feed), shard, drained, false), Drain(w, feed, n));
    }
  }

  lemma CrashKeepsInv(w: World, compression: Compression)
    requires Inv(w)
    ensures Inv(Crash(w, compression))
  {
  }

  // Closing a shard neither reads nor writes the map of open shards.
  lemma CloseIgnoresShards(w: World, shards: map<string, OpenShard>, shard: OpenShard, outcome: Outcome)
    ensures Close(w.(shards := shards), shard, outcome) == Close(w, shard, outcome).(shards := shards)
  {
  }

  lemma AllDetached(w: World, feed: string)
    requires Inv(w) && feed in w.shards
    ensures Inv(w.(shards := map[])) && Detached(w.(shards := map[]), w.shards[feed])
    ensures w.(shards := map[]) == Detach(w, feed).(shards := map[])
  {
    assert OpenFaithfully(w, w.shards[feed]);
  }

  lemma {:induction false} CloseEachKeepsInv(w: World, order: seq<string>, outcomes: string -> Outcome)
    requires Inv(w)
    ensures Inv(CloseEach(w, order, outcomes))
  {
    if order != [] {
      hide Inv;
      CloseEachKeepsInv(w, order[..|order| - 1], outcomes);
      var feed := order[|order| - 1];
      CloseOneKeepsInv(CloseEach(w, order[..|order| - 1], outcomes), feed, outcomes(feed));
    }
  }

  lemma CloseKeepsSessions(w: World, shard: OpenShard, outcome: Outcome)
    ensures var w' := Close(w, shard, outcome);
            w'.sessions == w.sessions && w'.run == w.run && w'.compression == w.compression && w'.shards == w.shards
  {
  }

  lemma {:induction false} CloseEachKeepsSessions(w: World, order: seq<string>, outcomes: string -> Outcome)
    ensures var w' := CloseEach(w, order, outcomes);
            w'.sessions == w.sessions && w'.run == w.run && w'.compression == w.compression
            && forall feed | feed in w'.shards :: feed in w.shards && w'.shards[feed] == w.shards[feed]
  {
    if order != [] {
      hide Close;
      var before, feed := CloseEach(w, order[..|order| - 1], outcomes), order[|order| - 1];
      CloseEachKeepsSessions(w, order[..|order| - 1], outcomes);
      if feed in before.shards {
        CloseKeepsSessions(Detach(before, feed), before.shards[feed], outcomes(feed));
      }
    }
  }

  // Closing in turn closes every shard named, whatever each outcome.
  lemma {:induction false} ClosedAreGone(w: World, order: seq<string>, outcomes: string -> Outcome)
    ensures forall feed :: feed in CloseEach(w, order, outcomes).shards <==> feed in w.shards && feed !in order
  {
    if order != [] {
      hide Close;
      var n := |order| - 1;
      var before := CloseEach(w, order[..n], outcomes);
      ClosedAreGone(w, order[..n], outcomes);
      assert order == order[..n] + [order[n]];
      if order[n] in before.shards {
        CloseKeepsSessions(Detach(before, order[n]), before.shards[order[n]], outcomes(order[n]));
      }
    }
  }

  // -- Runs ---------------------------------------------------------------------------------

  // A write may rotate the feed's shard first, and may fail before its record is
  // acknowledged. A restart follows a crash or a clean stop.
  datatype Event =
    | Write(record: Record, stamp: int, outcome: Outcome, opening: Opening, acknowledged: bool)
    | Flow(feed: string, n: nat)
    | CloseAll(order: seq<string>, outcomes: string -> Outcome)
    | Restart(compression: Compression)

  function Step(w: World, e: Event): (w': World)
    requires Inv(w)
    ensures Inv(w')
  {
    match e
    case Write(record, stamp, outcome, opening, acknowledged) =>
      ShardForKeepsInv(w, record.feed, HourOf(record.fetchedAtMs), stamp, outcome, opening);
      var ready := ShardFor(w, record.feed, HourOf(record.fetchedAtMs), stamp, outcome, opening);
      if acknowledged && record.feed in ready.shards then
        AcceptKeepsInv(ready, record);
        Accept(ready, record)
      else ready
    case Flow(feed, n) =>
      DrainKeepsInv(w, feed, n);
      Drain(w, feed, n)
    case CloseAll(order, outcomes) =>
      CloseEachKeepsInv(w, order, outcomes);
      CloseEach(w, order, outcomes)
    case Restart(compression) =>
      CrashKeepsInv(w, compression);
      Crash(w, compression)
  }

  function Run(w: World, events: seq<Event>): (w': World)
    requires Inv(w)
    ensures Inv(w')
  {
    if events == [] then w else Step(Run(w, events[..|events| - 1]), events[|events| - 1])
  }

  // An empty directory and store.
  function Start(compression: Compression): (w: World)
    ensures Inv(w)
  {
    World(map[], map[], map[], compression, 0, [])
  }

  ghost predicate Whole(w: World, file: File, key: ShardKey) {
    && |file| == 1 && file[0].complete && file[0].session < |w.sessions|
    && w.sessions[file[0].session].key == key
    && file[0].records == w.sessions[file[0].session].acked
    && forall record | record in file[0].records :: record.feed == key.feed && HourOf(record.fetchedAtMs) == key.hour
  }

  // After any run of writes, rotations, flushes that fail, renames that fail,
  // uploads that fail, crashes and restarts: every final-named file is one
  // complete member, no file ever holds a second stream, and the member's
  // records are, in order, exactly those acknowledged to one stream, all of
  // them of that file's feed and UTC hour. The same holds of every stored shard.
  lemma FinalShardsAreWhole(compression: Compression, events: seq<Event>)
    ensures var w := Run(Start(compression), events);
            && (forall p | p in w.disk :: |w.disk[p]| == 1)
            && (forall key | Final(key) in w.disk :: Whole(w, w.disk[Final(key)], key))
            && (forall key | key in w.remote :: Whole(w, w.remote[key], key))
  {
    var w := Run(Start(compression), events);
    assert Inv(w);
  }
}
