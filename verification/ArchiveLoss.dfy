// What the archive can lose of what has reached disk: src/archive/archive.ts.
module ArchiveLoss {
  import opened Archive

  // -- Copies -----------------------------------------------------------------------------

  // A file with a stream's first records.
  ghost predicate Holds(file: File, session: nat, records: seq<Record>) {
    |file| == 1 && file[0].session == session && records <= file[0].records
  }

  ghost predicate HeldAt(w: World, p: Path, session: nat, records: seq<Record>) {
    p in w.disk && Holds(w.disk[p], session, records)
  }

  ghost predicate StoredAt(w: World, k: ShardKey, session: nat, records: seq<Record>) {
    k in w.remote && Holds(w.remote[k], session, records)
  }

  // The first records of a stream are still somewhere, on disk or in the store.
  ghost predicate Kept(w: World, session: nat, records: seq<Record>) {
    (exists p :: HeldAt(w, p, session, records)) || (exists k :: StoredAt(w, k, session, records))
  }

  ghost predicate IsOpen(w: World, session: nat) {
    exists feed | feed in w.shards :: w.shards[feed].session == session
  }

  // A stream that is closed and of which no copy is left.
  ghost predicate Lost(w: World, session: nat, records: seq<Record>) {
    session < |w.sessions| && !IsOpen(w, session) && !Kept(w, session, records)
  }

  lemma KeptIsKnown(w: World, session: nat, records: seq<Record>)
    requires Inv(w) && Kept(w, session, records)
    ensures session < |w.sessions|
  {
    if p :| HeldAt(w, p, session, records) {
      assert Faithful(w, w.disk[p], p.key);
    } else {
      var k :| StoredAt(w, k, session, records);
      assert Faithful(w, w.remote[k], k);
    }
  }

  // What is kept of an open stream is in the file it is written to.
  lemma OpenIsHeld(w: World, feed: string, session: nat, records: seq<Record>)
    requires Inv(w) && feed in w.shards && w.shards[feed].session == session && Kept(w, session, records)
    ensures HeldAt(w, Partial(w.shards[feed].key), session, records)
    ensures forall p | HeldAt(w, p, session, records) :: p == Partial(w.shards[feed].key)
    ensures forall k :: !StoredAt(w, k, session, records)
  {
    assert OpenFaithfully(w, w.shards[feed]);
    hide ShardsFaithful, DiskFaithful, RemoteFaithful, SessionsOwn;
    assert SessionsApart(w);
  }

  // A rename loses exactly the stream whose file had the new name.
  lemma RenameLosesExactlyTheReplaced(w: World, from: Path, to: Path, p: Path)
    requires Inv(w) && from in w.disk && from != to && p in w.disk
    ensures (exists q :: HeldAt(Rename(w, from, to), q, w.disk[p][0].session, [])) <==> p != to
  {
    var w' := Rename(w, from, to);
    var session := w.disk[p][0].session;
    assert Faithful(w, w.disk[p], p.key) && Faithful(w, w.disk[from], from.key);
    if p == from {
      assert HeldAt(w', to, session, []);
    } else if p != to {
      assert HeldAt(w', p, session, []);
    }
  }

  // -- Closing a shard ----------------------------------------------------------------------

  // Every copy of the stream is under a name that finalising this shard replaces:
  // its final name on disk and, if it is uploaded, its key in the store.
  ghost predicate CloseLoses(w: World, feed: string, outcome: Outcome, session: nat, records: seq<Record>) {
    && feed in w.shards && outcome.Finalised? && w.shards[feed].session != session
    && (forall p | HeldAt(w, p, session, records) :: p == Final(w.shards[feed].key))
    && (forall k | StoredAt(w, k, session, records) :: outcome.upload.Uploaded? && k == w.shards[feed].key)
  }

  function WholeFile(w: World, shard: OpenShard): File {
    [Member(shard.session, OnDisk(w.disk, shard.key) + shard.buffered, true)]
  }

  // The disk and the store once a shard is finalised.
  ghost predicate IsFinished(w: World, w': World, shard: OpenShard, upload: Upload) {
    && Partial(shard.key) in w.disk
    && w.disk[Partial(shard.key)] == [Member(shard.session, OnDisk(w.disk, shard.key), false)]
    && w'.disk == (if upload.Uploaded? && upload.unlinked then (w.disk - {Partial(shard.key)}) - {Final(shard.key)}
                   else (w.disk - {Partial(shard.key)})[Final(shard.key) := WholeFile(w, shard)])
    && w'.remote == (if upload.Uploaded? then w.remote[shard.key := WholeFile(w, shard)] else w.remote)
  }

  lemma OpenFile(w: World, feed: string)
    requires Inv(w) && feed in w.shards
    ensures var shard := w.shards[feed];
            Partial(shard.key) in w.disk
            && w.disk[Partial(shard.key)] == [Member(shard.session, OnDisk(w.disk, shard.key), false)]
  {
    assert OpenFaithfully(w, w.shards[feed]);
    hide Inv;
  }

  lemma SettledDisk(w: World, feed: string)
    requires feed in w.shards
    ensures var shard := w.shards[feed];
            var settled := Settle(Detach(w, feed), shard, shard.buffered, true);
            && settled.disk == w.disk[Partial(shard.key) := WholeFile(w, shard)] && settled.remote == w.remote
            && settled.disk - {Partial(shard.key)} == w.disk - {Partial(shard.key)}
  {
    hide OnDisk;
  }

  lemma Finished(w: World, feed: string, upload: Upload)
    requires Inv(w) && feed in w.shards
    ensures IsFinished(w, CloseOne(w, feed, Finalised(upload)), w.shards[feed], upload)
  {
    hide Inv, OnDisk;
    OpenFile(w, feed);
    var shard := w.shards[feed];
    SettledDisk(w, feed);
    var settled := Settle(Detach(w, feed), shard, shard.buffered, true);
    hide Settle, Detach;
    assert CloseOne(w, feed, Finalised(upload)).remote ==
           if upload.Uploaded? then w.remote[shard.key := WholeFile(w, shard)] else w.remote;
  }

  lemma WholeFileHolds(w: World, shard: OpenShard, records: seq<Record>)
    requires records <= OnDisk(w.disk, shard.key)
    ensures Holds(WholeFile(w, shard), shard.session, records)
  {
  }

  lemma WholeFileIsOwn(w: World, shard: OpenShard, session: nat, records: seq<Record>)
    requires session != shard.session
    ensures !Holds(WholeFile(w, shard), session, records)
  {
  }

  lemma StillKept(w: World, session: nat, records: seq<Record>)
    ensures Kept(w, session, records) <==>
            (exists p :: HeldAt(w, p, session, records)) || (exists k :: StoredAt(w, k, session, records))
  {
  }

  lemma FinishedKeeps(w: World, w': World, shard: OpenShard, upload: Upload, session: nat, records: seq<Record>)
    requires IsFinished(w, w', shard, upload)
    requires Kept(w, session, records)
    requires shard.session == session ==> HeldAt(w, Partial(shard.key), session, records)
    ensures Kept(w', session, records) <==>
            !(shard.session != session
              && (forall p | HeldAt(w, p, session, records) :: p == Final(shard.key))
              && (forall k | StoredAt(w, k, session, records) :: upload.Uploaded? && k == shard.key))
  {
    hide Kept, WholeFile;
    var key := shard.key;
    if shard.session == session {
      assert Holds(WholeFile(w, shard), session, records) by { WholeFileHolds(w, shard, records); }
      assert HeldAt(w', Final(key), session, records) || StoredAt(w', key, session, records);
      StillKept(w', session, records);
    } else {
      assert !Holds(WholeFile(w, shard), session, records) by { WholeFileIsOwn(w, shard, session, records); }
      if p :| HeldAt(w, p, session, records) && p != Final(key) {
        assert HeldAt(w', p, session, records);
      }
      if k :| StoredAt(w, k, session, records) && !(upload.Uploaded? && k == key) {
        assert StoredAt(w', k, session, records);
      }
      forall p | HeldAt(w', p, session, records)
        ensures HeldAt(w, p, session, records) && p != Final(key)
      {
      }
      forall k | StoredAt(w', k, session, records)
        ensures StoredAt(w, k, session, records) && !(upload.Uploaded? && k == key)
      {
      }
      StillKept(w', session, records);
    }
  }

  // A close that does not finalise leaves every copy, the shard's own longer.
  ghost predicate IsLonger(w: World, w': World, p: Path) {
    && p in w.disk && |w.disk[p]| == 1 && w'.remote == w.remote
    && p in w'.disk && |w'.disk[p]| == 1
    && w'.disk[p][0].session == w.disk[p][0].session && w.disk[p][0].records <= w'.disk[p][0].records
    && (forall q :: q in w'.disk <==> q in w.disk)
    && (forall q | q in w.disk && q != p :: w'.disk[q] == w.disk[q])
  }

  lemma Unfinished(w: World, feed: string, outcome: Outcome)
    requires Inv(w) && feed in w.shards && !outcome.Finalised?
    ensures IsLonger(w, CloseOne(w, feed, outcome), Partial(w.shards[feed].key))
  {
    assert OpenFaithfully(w, w.shards[feed]);
    hide Inv;
  }

  lemma LongerKeeps(w: World, w': World, p: Path, session: nat, records: seq<Record>)
    requires IsLonger(w, w', p)
    ensures Kept(w, session, records) ==> Kept(w', session, records)
    ensures w.disk[p][0].session != session && !Kept(w, session, records) ==> !Kept(w', session, records)
  {
    if q :| HeldAt(w, q, session, records) {
      assert HeldAt(w', q, session, records);
    }
    if k :| StoredAt(w, k, session, records) {
      assert StoredAt(w', k, session, records);
    }
    if w.disk[p][0].session != session {
      forall q | HeldAt(w', q, session, records)
        ensures HeldAt(w, q, session, records)
      {
      }
      forall k | StoredAt(w', k, session, records)
        ensures StoredAt(w, k, session, records)
      {
      }
    }
  }

  lemma CloseShards(w: World, feed: string, outcome: Outcome)
    requires Inv(w)
    ensures var w' := CloseOne(w, feed, outcome);
            Inv(w') && w'.sessions == w.sessions && w'.shards == w.shards - {feed}
  {
    CloseOneKeepsInv(w, feed, outcome);
    hide Inv;
  }

  lemma OpenIsNotLost(w: World, feed: string, outcome: Outcome, session: nat, records: seq<Record>)
    requires Inv(w) && Kept(w, session, records) && CloseLoses(w, feed, outcome, session, records)
    ensures !IsOpen(w, session)
  {
    hide Inv;
    if other :| other in w.shards && w.shards[other].session == session {
      OpenIsHeld(w, other, session, records);
    }
  }

  lemma NothingToClose(w: World, feed: string, outcome: Outcome)
    requires feed !in w.shards
    ensures CloseOne(w, feed, outcome) == w
  {
  }

  // Closing a shard loses a stream exactly when all its copies are replaced, and
  // a stream that is lost stays lost.
  lemma CloseKeepsExactlyWhen(w: World, feed: string, outcome: Outcome, session: nat, records: seq<Record>)
    requires Inv(w) && Kept(w, session, records)
    ensures var w' := CloseOne(w, feed, outcome);
            if CloseLoses(w, feed, outcome, session, records)
              then Lost(w', session, records) else Kept(w', session, records)
  {
    hide Inv, CloseOne, Kept;
    KeptIsKnown(w, session, records);
    CloseShards(w, feed, outcome);
    if feed !in w.shards {
      assert CloseOne(w, feed, outcome) == w by { NothingToClose(w, feed, outcome); }
    } else if outcome.Finalised? {
      Finished(w, feed, outcome.upload);
      if w.shards[feed].session == session {
        OpenIsHeld(w, feed, session, records);
      }
      FinishedKeeps(w, CloseOne(w, feed, outcome), w.shards[feed], outcome.upload, session, records);
      if CloseLoses(w, feed, outcome, session, records) {
        OpenIsNotLost(w, feed, outcome, session, records);
      }
    } else {
      Unfinished(w, feed, outcome);
      LongerKeeps(w, CloseOne(w, feed, outcome), Partial(w.shards[feed].key), session, records);
    }
  }

  lemma PartialIsOwn(w: World, feed: string)
    requires Inv(w) && feed in w.shards
    ensures var p := Partial(w.shards[feed].key);
            p in w.disk && |w.disk[p]| == 1 && w.disk[p][0].session == w.shards[feed].session
  {
    assert OpenFaithfully(w, w.shards[feed]);
    hide Inv;
  }

  lemma FinishedStaysLost(w: World, w': World, shard: OpenShard, upload: Upload, session: nat, records: seq<Record>)
    requires IsFinished(w, w', shard, upload) && shard.session != session && !Kept(w, session, records)
    ensures !Kept(w', session, records)
  {
    forall p | HeldAt(w', p, session, records)
      ensures HeldAt(w, p, session, records)
    {
    }
    forall k | StoredAt(w', k, session, records)
      ensures StoredAt(w, k, session, records)
    {
    }
  }

  lemma CloseStaysLost(w: World, feed: string, outcome: Outcome, session: nat, records: seq<Record>)
    requires Inv(w) && Lost(w, session, records)
    ensures Lost(CloseOne(w, feed, outcome), session, records)
  {
    hide Inv, CloseOne, Kept;
    CloseShards(w, feed, outcome);
    if feed !in w.shards {
      NothingToClose(w, feed, outcome);
    } else {
      assert w.shards[feed].session != session;
      if outcome.Finalised? {
        Finished(w, feed, outcome.upload);
        FinishedStaysLost(w, CloseOne(w, feed, outcome), w.shards[feed], outcome.upload, session, records);
      } else {
        Unfinished(w, feed, outcome);
        PartialIsOwn(w, feed);
        LongerKeeps(w, CloseOne(w, feed, outcome), Partial(w.shards[feed].key), session, records);
      }
    }
  }

  // -- Opening a stream ----------------------------------------------------------------------

  // The only copies are under the name an abandoned file is moved to.
  ghost predicate OpenLoses(w: World, feed: string, hour: int, stamp: int, session: nat, records: seq<Record>) {
    var key := ShardKey(feed, hour, w.compression);
    && Partial(key) in w.disk
    && (forall p | HeldAt(w, p, session, records) :: p == Salvaged(key, stamp))
    && (forall k :: !StoredAt(w, k, session, records))
  }

  lemma OpenKept(w: World, feed: string, hour: int, stamp: int, session: nat, records: seq<Record>)
    requires Kept(w, session, records) && !OpenLoses(w, feed, hour, stamp, session, records)
    ensures Kept(Open(w, feed, hour, stamp), session, records)
  {
    var (w', key) := (Open(w, feed, hour, stamp), ShardKey(feed, hour, w.compression));
    if p :| HeldAt(w, p, session, records) && !(Partial(key) in w.disk && p == Salvaged(key, stamp)) {
      assert HeldAt(w', if p == Partial(key) then Salvaged(key, stamp) else p, session, records);
    } else {
      var k :| StoredAt(w, k, session, records);
      assert StoredAt(w', k, session, records);
    }
  }

  lemma OpenAddsOwn(w: World, feed: string, hour: int, stamp: int)
    ensures var w' := Open(w, feed, hour, stamp);
            && |w'.sessions| == |w.sessions| + 1
            && forall other | other in w'.shards ::
                 (other == feed && w'.shards[other].session == |w.sessions|)
                 || (other in w.shards && w'.shards[other] == w.shards[other])
  {
  }

  // Whatever is on disk after opening was there before, but for the new stream.
  lemma NewStreamIsNot(w: World, feed: string, hour: int, stamp: int, session: nat, records: seq<Record>)
    requires session < |w.sessions|
    ensures var (w', key) := (Open(w, feed, hour, stamp), ShardKey(feed, hour, w.compression));
            && w'.remote == w.remote
            && forall p | HeldAt(w', p, session, records) ::
                 if p == Salvaged(key, stamp) && Partial(key) in w.disk then HeldAt(w, Partial(key), session, records)
                 else HeldAt(w, p, session, records)
  {
  }

  lemma OpenLost(w: World, feed: string, hour: int, stamp: int, session: nat, records: seq<Record>)
    requires Inv(w) && feed !in w.shards && session < |w.sessions| && Kept(w, session, records)
    requires OpenLoses(w, feed, hour, stamp, session, records)
    ensures Lost(Open(w, feed, hour, stamp), session, records)
  {
    hide Inv, Holds;
    var w' := Open(w, feed, hour, stamp);
    NewStreamIsNot(w, feed, hour, stamp, session, records);
    forall other | other in w.shards
      ensures w.shards[other].session != session
    {
      if w.shards[other].session == session {
        OpenIsHeld(w, other, session, records);
      }
    }
    forall k
      ensures !StoredAt(w', k, session, records)
    {
      assert !StoredAt(w, k, session, records);
    }
    OpenAddsOwn(w, feed, hour, stamp);
  }

  lemma OpenKeepsExactlyWhen(w: World, feed: string, hour: int, stamp: int, session: nat, records: seq<Record>)
    requires Inv(w) && feed !in w.shards && Kept(w, session, records)
    ensures var w' := Open(w, feed, hour, stamp);
            if OpenLoses(w, feed, hour, stamp, session, records)
              then Lost(w', session, records) else Kept(w', session, records)
  {
    hide Inv, Open, Kept;
    KeptIsKnown(w, session, records);
    if OpenLoses(w, feed, hour, stamp, session, records) {
      OpenLost(w, feed, hour, stamp, session, records);
    } else {
      OpenKept(w, feed, hour, stamp, session, records);
    }
  }

  lemma OpenStaysLost(w: World, feed: string, hour: int, stamp: int, session: nat, records: seq<Record>)
    requires Lost(w, session, records) && feed !in w.shards
    ensures Lost(Open(w, feed, hour, stamp), session, records)
  {
    hide Holds, Open;
    NewStreamIsNot(w, feed, hour, stamp, session, records);
    OpenAddsOwn(w, feed, hour, stamp);
    var w' := Open(w, feed, hour, stamp);
    forall k
      ensures !StoredAt(w', k, session, records)
    {
      assert !StoredAt(w, k, session, records);
    }
  }

  // -- Steps ---------------------------------------------------------------------------------

  ghost predicate ShardForLoses(w: World, feed: string, hour: int, stamp: int, outcome: Outcome, opening: Opening,
                                session: nat, records: seq<Record>)
  {
    && !Current(w, feed, hour)
    && var closed := CloseOne(w, feed, outcome);
       CloseLoses(w, feed, outcome, session, records)
       || (Opens(closed, feed, hour, opening) && OpenLoses(closed, feed, hour, stamp, session, records))
  }

  ghost predicate EachLoses(w: World, order: seq<string>, outcomes: string -> Outcome, session: nat,
                            records: seq<Record>) {
    order != [] &&
    var (before, feed) := (CloseEach(w, order[..|order| - 1], outcomes), order[|order| - 1]);
    EachLoses(w, order[..|order| - 1], outcomes, session, records)
    || CloseLoses(before, feed, outcomes(feed), session, records)
  }

  // A step finalises, stores or moves a file over every copy of the stream.
  ghost predicate StepLoses(w: World, e: Event, session: nat, records: seq<Record>) {
    match e
    case Write(record, stamp, outcome, opening, _) =>
      ShardForLoses(w, record.feed, HourOf(record.fetchedAtMs), stamp, outcome, opening, session, records)
    case CloseAll(order, outcomes) => EachLoses(w, order, outcomes, session, records)
    case _ => false
  }

  lemma ShardForKeepsExactlyWhen(w: World, feed: string, hour: int, stamp: int, outcome: Outcome, opening: Opening,
                                 session: nat, records: seq<Record>)
    requires Inv(w) && Kept(w, session, records)
    ensures var w' := ShardFor(w, feed, hour, stamp, outcome, opening);
            if ShardForLoses(w, feed, hour, stamp, outcome, opening, session, records) then Lost(w', session, records)
            else Kept(w', session, records)
  {
    hide Inv, Kept, Lost, CloseOne, Open, CloseLoses, OpenLoses, Opens;
    if !Current(w, feed, hour) {
      var closed := CloseOne(w, feed, outcome);
      CloseShards(w, feed, outcome);
      CloseKeepsExactlyWhen(w, feed, outcome, session, records);
      if CloseLoses(w, feed, outcome, session, records) {
        OpenStaysLost(closed, feed, hour, stamp, session, records);
      } else {
        OpenKeepsExactlyWhen(closed, feed, hour, stamp, session, records);
      }
    }
  }

  lemma ShardForStaysLost(w: World, feed: string, hour: int, stamp: int, outcome: Outcome, opening: Opening,
                          session: nat, records: seq<Record>)
    requires Inv(w) && Lost(w, session, records)
    ensures Lost(ShardFor(w, feed, hour, stamp, outcome, opening), session, records)
  {
    hide Inv, Lost, CloseOne, Open, Opens;
    if !Current(w, feed, hour) {
      CloseShards(w, feed, outcome);
      CloseStaysLost(w, feed, outcome, session, records);
      OpenStaysLost(CloseOne(w, feed, outcome), feed, hour, stamp, session, records);
    }
  }

  lemma {:induction false} EachKeepsExactlyWhen(w: World, order: seq<string>, outcomes: string -> Outcome,
                                                session: nat, records: seq<Record>)
    requires Inv(w) && Kept(w, session, records)
    ensures var w' := CloseEach(w, order, outcomes);
            if EachLoses(w, order, outcomes, session, records)
              then Lost(w', session, records) else Kept(w', session, records)
  {
    hide Inv, Kept, Lost, CloseOne, CloseLoses;
    if order != [] {
      var before, feed := order[..|order| - 1], order[|order| - 1];
      EachKeepsExactlyWhen(w, before, outcomes, session, records);
      CloseEachKeepsInv(w, before, outcomes);
      if EachLoses(w, before, outcomes, session, records) {
        CloseStaysLost(CloseEach(w, before, outcomes), feed, outcomes(feed), session, records);
      } else {
        CloseKeepsExactlyWhen(CloseEach(w, before, outcomes), feed, outcomes(feed), session, records);
      }
    }
  }

  lemma {:induction false} EachStaysLost(w: World, order: seq<string>, outcomes: string -> Outcome,
                                         session: nat, records: seq<Record>)
    requires Inv(w) && Lost(w, session, records)
    ensures Lost(CloseEach(w, order, outcomes), session, records)
  {
    hide Inv, Lost, CloseOne;
    if order != [] {
      var before, feed := order[..|order| - 1], order[|order| - 1];
      EachStaysLost(w, before, outcomes, session, records);
      CloseEachKeepsInv(w, before, outcomes);
      CloseStaysLost(CloseEach(w, before, outcomes), feed, outcomes(feed), session, records);
    }
  }

  // A step that leaves disk, store and open streams' numbers alone.
  lemma SameCopies(w: World, w': World, session: nat, records: seq<Record>)
    requires w'.disk == w.disk && w'.remote == w.remote && |w'.sessions| == |w.sessions|
    requires forall feed | feed in w'.shards :: feed in w.shards && w'.shards[feed].session == w.shards[feed].session
    ensures Kept(w, session, records) ==> Kept(w', session, records)
    ensures Lost(w, session, records) ==> Lost(w', session, records)
  {
    if p :| HeldAt(w, p, session, records) {
      assert HeldAt(w', p, session, records);
    }
    if k :| StoredAt(w, k, session, records) {
      assert StoredAt(w', k, session, records);
    }
    forall p | HeldAt(w', p, session, records)
      ensures HeldAt(w, p, session, records)
    {
    }
    forall k | StoredAt(w', k, session, records)
      ensures StoredAt(w, k, session, records)
    {
    }
  }

  lemma AcceptKeepsCopies(w: World, record: Record)
    requires record.feed in w.shards && w.shards[record.feed].session < |w.sessions|
    ensures var w' := Accept(w, record);
            && w'.disk == w.disk && w'.remote == w.remote && |w'.sessions| == |w.sessions|
            && forall feed | feed in w'.shards :: feed in w.shards && w'.shards[feed].session == w.shards[feed].session
  {
  }

  lemma Drained(w: World, feed: string, n: nat)
    requires Inv(w) && feed in w.shards
    ensures IsLonger(w, Drain(w, feed, n), Partial(w.shards[feed].key))
  {
    assert OpenFaithfully(w, w.shards[feed]);
    hide Inv;
  }

  lemma FlowKeeps(w: World, feed: string, n: nat, session: nat, records: seq<Record>)
    requires Inv(w)
    ensures Kept(w, session, records) ==> Kept(Drain(w, feed, n), session, records)
    ensures Lost(w, session, records) ==> Lost(Drain(w, feed, n), session, records)
  {
    if feed in w.shards {
      assert OpenFaithfully(w, w.shards[feed]);
      hide Inv, OpenFaithfully, Kept;
      var w' := Drain(w, feed, n);
      assert IsLonger(w, w', Partial(w.shards[feed].key)) by { Drained(w, feed, n); }
      PartialIsOwn(w, feed);
      LongerKeeps(w, w', Partial(w.shards[feed].key), session, records);
    }
  }

  lemma StepKeepsExactlyWhen(w: World, e: Event, session: nat, records: seq<Record>)
    requires Inv(w)
    ensures Kept(w, session, records) ==>
              if StepLoses(w, e, session, records) then Lost(Step(w, e), session, records)
              else Kept(Step(w, e), session, records)
    ensures Lost(w, session, records) ==> Lost(Step(w, e), session, records)
  {
    hide Inv, Kept, Lost, ShardFor, Drain, CloseEach, ShardForLoses, EachLoses;
    match e
    case Write(record, stamp, outcome, opening, acknowledged) =>
      var hour := HourOf(record.fetchedAtMs);
      var ready := ShardFor(w, record.feed, hour, stamp, outcome, opening);
      ShardForKeepsInv(w, record.feed, hour, stamp, outcome, opening);
      if Kept(w, session, records) {
        ShardForKeepsExactlyWhen(w, record.feed, hour, stamp, outcome, opening, session, records);
      }
      if Lost(w, session, records) {
        ShardForStaysLost(w, record.feed, hour, stamp, outcome, opening, session, records);
      }
      if acknowledged && record.feed in ready.shards {
        AcceptKeepsInv(ready, record);
        AcceptKeepsCopies(ready, record);
        SameCopies(ready, Accept(ready, record), session, records);
      }
    case Flow(feed, n) =>
      FlowKeeps(w, feed, n, session, records);
    case CloseAll(order, outcomes) =>
      if Kept(w, session, records) {
        EachKeepsExactlyWhen(w, order, outcomes, session, records);
      }
      if Lost(w, session, records) {
        EachStaysLost(w, order, outcomes, session, records);
      }
    case Restart(compression) =>
      SameCopies(w, Crash(w, compression), session, records);
  }

  // -- Runs ----------------------------------------------------------------------------------

  ghost predicate LosesAt(w: World, events: seq<Event>, i: nat, session: nat, records: seq<Record>)
    requires Inv(w) && i < |events|
  {
    Kept(Run(w, events[..i]), session, records) && StepLoses(Run(w, events[..i]), events[i], session, records)
  }

  ghost predicate SomeStepLoses(w: World, events: seq<Event>, session: nat, records: seq<Record>)
    requires Inv(w)
  {
    exists i | 0 <= i < |events| :: LosesAt(w, events, i, session, records)
  }

  lemma RunSnoc(w: World, events: seq<Event>, i: nat)
    requires Inv(w) && i < |events|
    ensures Run(w, events[..i + 1]) == Step(Run(w, events[..i]), events[i])
  {
    hide Inv, Step;
    assert events[..i + 1][..i] == events[..i];
  }

  lemma LostIsNotKept(w: World, session: nat, records: seq<Record>)
    requires Lost(w, session, records)
    ensures !Kept(w, session, records)
  {
  }

  // What has reached disk is kept through any run, whatever fails in it and
  // whenever the process dies, if and only if no step of it replaces the last
  // copy.
  lemma {:induction false} KeptExactlyWhen(w: World, events: seq<Event>, n: nat, session: nat, records: seq<Record>)
    requires Inv(w) && Kept(w, session, records) && n <= |events|
    ensures if exists i | 0 <= i < n :: LosesAt(w, events, i, session, records)
            then Lost(Run(w, events[..n]), session, records) else Kept(Run(w, events[..n]), session, records)
  {
    hide Inv, Kept, Lost, StepLoses, Step;
    if n == 0 {
      assert events[..0] == [];
    } else {
      var i := n - 1;
      KeptExactlyWhen(w, events, i, session, records);
      RunSnoc(w, events, i);
      StepKeepsExactlyWhen(Run(w, events[..i]), events[i], session, records);
      hide Run;
      if Kept(Run(w, events[..i]), session, records) && StepLoses(Run(w, events[..i]), events[i], session, records) {
        assert LosesAt(w, events, i, session, records);
      }
      if j :| 0 <= j < i && LosesAt(w, events, j, session, records) {
        LostIsNotKept(Run(w, events[..i]), session, records);
      }
    }
  }

  lemma NothingOnDiskIsLostExactlyWhen(w: World, events: seq<Event>, session: nat, records: seq<Record>)
    requires Inv(w) && Kept(w, session, records)
    ensures Kept(Run(w, events), session, records) <==> !SomeStepLoses(w, events, session, records)
  {
    hide Inv, Run, Kept, LosesAt;
    KeptExactlyWhen(w, events, |events|, session, records);
    assert events[..|events|] == events;
    if SomeStepLoses(w, events, session, records) {
      LostIsNotKept(Run(w, events), session, records);
    }
  }

  // -- A simple sufficient condition ------------------------------------------------------------

  // Nothing is finalised, or stored, over a shard of the same name, and nothing
  // is moved aside onto an existing name.
  ghost predicate CarefulClose(w: World, feed: string, outcome: Outcome) {
    feed in w.shards && outcome.Finalised? ==>
      var key := w.shards[feed].key;
      Final(key) !in w.disk && (outcome.upload.Uploaded? ==> key !in w.remote)
  }

  ghost predicate CarefulEach(w: World, order: seq<string>, outcomes: string -> Outcome) {
    order != [] ==>
      var (before, feed) := (CloseEach(w, order[..|order| - 1], outcomes), order[|order| - 1]);
      CarefulEach(w, order[..|order| - 1], outcomes) && CarefulClose(before, feed, outcomes(feed))
  }

  ghost predicate Careful(w: World, e: Event) {
    match e
    case Write(record, stamp, outcome, _, _) =>
      var (feed, hour) := (record.feed, HourOf(record.fetchedAtMs));
      var (closed, key) := (CloseOne(w, feed, outcome), ShardKey(feed, hour, w.compression));
      CarefulClose(w, feed, outcome) && (Partial(key) in closed.disk ==> Salvaged(key, stamp) !in closed.disk)
    case CloseAll(order, outcomes) => CarefulEach(w, order, outcomes)
    case _ => true
  }

  ghost predicate CarefulRun(w: World, events: seq<Event>)
    requires Inv(w)
  {
    forall i | 0 <= i < |events| :: Careful(Run(w, events[..i]), events[i])
  }

  lemma CarefulCloseLosesNothing(w: World, feed: string, outcome: Outcome, session: nat, records: seq<Record>)
    requires Kept(w, session, records) && CarefulClose(w, feed, outcome)
    ensures !CloseLoses(w, feed, outcome, session, records)
  {
    hide Holds;
  }

  lemma {:induction false} CarefulEachLosesNothing(w: World, order: seq<string>, outcomes: string -> Outcome,
                                                   session: nat, records: seq<Record>)
    requires Inv(w) && Kept(w, session, records) && CarefulEach(w, order, outcomes)
    ensures !EachLoses(w, order, outcomes, session, records)
  {
    hide Inv, Kept, CloseLoses, CarefulClose, CloseOne;
    if order != [] {
      var before, feed := order[..|order| - 1], order[|order| - 1];
      CarefulEachLosesNothing(w, before, outcomes, session, records);
      EachKeepsExactlyWhen(w, before, outcomes, session, records);
      CarefulCloseLosesNothing(CloseEach(w, before, outcomes), feed, outcomes(feed), session, records);
    }
  }

  lemma CloseKeepsCompression(w: World, feed: string, outcome: Outcome)
    ensures CloseOne(w, feed, outcome).compression == w.compression
  {
  }

  lemma CarefulOpenLosesNothing(w: World, feed: string, hour: int, stamp: int, session: nat, records: seq<Record>)
    requires Kept(w, session, records)
    ensures var key := ShardKey(feed, hour, w.compression);
            (Partial(key) in w.disk ==> Salvaged(key, stamp) !in w.disk) ==>
              !OpenLoses(w, feed, hour, stamp, session, records)
  {
    hide Holds;
  }

  lemma CarefulStepLosesNothing(w: World, e: Event, session: nat, records: seq<Record>)
    requires Inv(w) && Kept(w, session, records) && Careful(w, e)
    ensures !StepLoses(w, e, session, records)
  {
    hide Inv, Kept, CloseLoses, CarefulClose, CloseOne, EachLoses, CarefulEach;
    match e
    case Write(record, stamp, outcome, opening, _) =>
      var (feed, hour) := (record.feed, HourOf(record.fetchedAtMs));
      CarefulCloseLosesNothing(w, feed, outcome, session, records);
      CloseKeepsExactlyWhen(w, feed, outcome, session, records);
      CloseKeepsCompression(w, feed, outcome);
      CarefulOpenLosesNothing(CloseOne(w, feed, outcome), feed, hour, stamp, session, records);
    case CloseAll(order, outcomes) =>
      CarefulEachLosesNothing(w, order, outcomes, session, records);
    case _ =>
  }

  // Nothing on disk is lost in a run that puts no shard over another of its name.
  lemma NothingOnDiskIsLost(w: World, events: seq<Event>, session: nat, records: seq<Record>)
    requires Inv(w) && CarefulRun(w, events) && Kept(w, session, records)
    ensures Kept(Run(w, events), session, records)
  {
    hide Inv, Run, Kept, Careful, StepLoses;
    NothingOnDiskIsLostExactlyWhen(w, events, session, records);
    if i :| 0 <= i < |events| && LosesAt(w, events, i, session, records) {
      CarefulStepLosesNothing(Run(w, events[..i]), events[i], session, records);
    }
  }

  // -- Two clean runs in one hour -------------------------------------------------------------

  lemma TwoSteps(w: World, a: Event, b: Event)
    requires Inv(w)
    ensures Run(w, [a, b]) == Step(Step(w, a), b)
  {
    hide Inv, Step;
    assert [a, b][..1] == [a] && [a][..0] == [];
    assert Run(w, [a]) == Step(w, a);
  }

  lemma StopOne(w: World, feed: string, outcomes: string -> Outcome)
    requires Inv(w)
    ensures Step(w, CloseAll([feed], outcomes)) == CloseOne(w, feed, outcomes(feed))
  {
    hide Inv, CloseOne;
    var order := [feed];
    assert order[..|order| - 1] == [];
    assert CloseEach(w, [], outcomes) == w;
  }

  lemma FirstWrite(w: World, record: Record)
    requires Inv(w) && w.shards == map[]
    requires Partial(ShardKey(record.feed, HourOf(record.fetchedAtMs), w.compression)) !in w.disk
    ensures var key := ShardKey(record.feed, HourOf(record.fetchedAtMs), w.compression);
            var w' := Step(w, Write(record, 0, Finalised(NoUploader), Opened, true));
            w'.disk == w.disk[Partial(key) := [Member(|w.sessions|, [], false)]]
            && w'.remote == w.remote && |w'.sessions| == |w.sessions| + 1
            && w'.shards == map[record.feed := OpenShard(key, |w.sessions|, [record], 1)]
  {
    hide Inv;
    var hour := HourOf(record.fetchedAtMs);
    var key := ShardKey(record.feed, hour, w.compression);
    var ready := ShardFor(w, record.feed, hour, 0, Finalised(NoUploader), Opened);
    assert ready == Create(w, record.feed, key);
    assert ready.shards == map[record.feed := OpenShard(key, |w.sessions|, [], 0)];
    ShardForKeepsInv(w, record.feed, hour, 0, Finalised(NoUploader), Opened);
    AcceptKeepsInv(ready, record);
    assert [] + [record] == [record];
    assert Step(w, Write(record, 0, Finalised(NoUploader), Opened, true)) == Accept(ready, record);
  }

  lemma LastClose(w: World, written: World, record: Record)
    requires var key := ShardKey(record.feed, HourOf(record.fetchedAtMs), w.compression);
             Partial(key) !in w.disk
             && written.disk == w.disk[Partial(key) := [Member(|w.sessions|, [], false)]]
             && written.shards == map[record.feed := OpenShard(key, |w.sessions|, [record], 1)]
    ensures var key := ShardKey(record.feed, HourOf(record.fetchedAtMs), w.compression);
            var w' := CloseOne(written, record.feed, Finalised(NoUploader));
            w'.disk == w.disk[Final(key) := [Member(|w.sessions|, [record], true)]]
            && w'.remote == written.remote && w'.shards == map[] && w'.sessions == written.sessions
  {
    assert [] + [record] == [record];
  }

  // A run that writes one record and stops cleanly, on a disk without a .partial
  // for that hour: its shard takes the final name, whatever had it.
  lemma CleanRun(w: World, record: Record, outcomes: string -> Outcome)
    requires Inv(w) && w.shards == map[] && outcomes(record.feed) == Finalised(NoUploader)
    requires Partial(ShardKey(record.feed, HourOf(record.fetchedAtMs), w.compression)) !in w.disk
    ensures var key := ShardKey(record.feed, HourOf(record.fetchedAtMs), w.compression);
            var w' :=
              Run(w, [Write(record, 0, Finalised(NoUploader), Opened, true), CloseAll([record.feed], outcomes)]);
            w'.disk == w.disk[Final(key) := [Member(|w.sessions|, [record], true)]]
            && w'.remote == w.remote && w'.shards == map[] && |w'.sessions| == |w.sessions| + 1
  {
    hide Inv, Step;
    var write, stop := Write(record, 0, Finalised(NoUploader), Opened, true), CloseAll([record.feed], outcomes);
    FirstWrite(w, record);
    var written := Step(w, write);
    TwoSteps(w, write, stop);
    StopOne(written, record.feed, outcomes);
    hide Run;
    LastClose(w, written, record);
  }

  // The hypothesis is needed. Two clean runs within one hour, each finalising
  // its shard: the first run's records are then nowhere.
  lemma SecondCleanRunReplacesFirst(first: Record, second: Record, outcomes: string -> Outcome)
    requires second.feed == first.feed && HourOf(second.fetchedAtMs) == HourOf(first.fetchedAtMs)
    requires outcomes(first.feed) == Finalised(NoUploader)
    ensures var write1 := Write(first, 0, Finalised(NoUploader), Opened, true);
            var write2 := Write(second, 0, Finalised(NoUploader), Opened, true);
            var stop := CloseAll([first.feed], outcomes);
            var w1 := Run(Start(Gzip), [write1, stop]);
            var w2 := Run(Crash(w1, Gzip), [write2, stop]);
            Kept(w1, 0, [first]) && !Kept(w2, 0, [])
  {
    hide Run, Inv;
    var key := ShardKey(first.feed, HourOf(first.fetchedAtMs), Gzip);
    CleanRun(Start(Gzip), first, outcomes);
    var w1 :=
      Run(Start(Gzip), [Write(first, 0, Finalised(NoUploader), Opened, true), CloseAll([first.feed], outcomes)]);
    assert Final(key) in w1.disk && Partial(key) !in w1.disk;
    CrashKeepsInv(w1, Gzip);
    CleanRun(Crash(w1, Gzip), second, outcomes);
    assert HeldAt(w1, Final(key), 0, [first]);
    var w2 :=
      Run(Crash(w1, Gzip), [Write(second, 0, Finalised(NoUploader), Opened, true), CloseAll([first.feed], outcomes)]);
    assert w2.disk == map[Final(key) := [Member(1, [second], true)]] && w2.remote == map[];
  }
}
