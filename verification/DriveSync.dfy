// The upload and prune run: main of scripts/upload-archive.ts. The remote is a
// map from key to contents, and MD5 is a function of the contents.
module DriveSync {
  import opened Wrappers
  import opened DriveKeys
  import Calendar

  type Md5 = seq<int> -> string

  ghost predicate Injective(md5: Md5) {
    forall a, b :: md5(a) == md5(b) ==> a == b
  }

  datatype File = File(content: seq<int>, mtimeMs: int)

  // A remote file; its listing carries the MD5 of its contents only if hashed.
  datatype RemoteFile = RemoteFile(content: seq<int>, hashed: bool)

  type Local = map<string, File>
  type Remote = map<string, RemoteFile>

  datatype Shard = Shard(path: string, key: string, content: seq<int>, mtimeMs: int)

  // -- The scan ------------------------------------------------------------------------

  lemma CacheIsNoShard(path: string)
    requires ToDriveKey(path).Some?
    ensures |Split(path)| == 3
    ensures ".gtfs-cache" in Split(path) <==> Split(path)[0] == ".gtfs-cache" || Split(path)[1] == ".gtfs-cache"
  {
    hide Split;
    assert |".gtfs-cache"| == 11;
    assert IsShardName(Split(path)[2]);
    assert Split(path) == [Split(path)[0], Split(path)[1], Split(path)[2]];
  }

  // A finalised shard, by its name. Names with .partial never match, and the
  // walk does not enter .gtfs-cache.
  predicate IsShard(path: string): (found: bool)
    ensures found <==> ToDriveKey(path).Some? && ".gtfs-cache" !in Split(path)
  {
    if ToDriveKey(path).None? then false
    else
      CacheIsNoShard(path);
      Split(path)[0] != ".gtfs-cache" && Split(path)[1] != ".gtfs-cache"
  }

  // Every shard the archive finalises is scanned.
  lemma EmittedIsShard(feed: string, hour: int, brotli: bool)
    requires '/' !in feed && feed != ".gtfs-cache" && InRange(hour)
    ensures IsShard(LocalPath(feed, hour, brotli))
  {
    EmittedIsRecognised(feed, hour, brotli);
    SplitLocalPath(feed, hour, brotli);
    EmittedName(hour, brotli);
    hide ToDriveKey, Split, IsShardName, LocalPath, ShardName, InRange, Calendar.DateText, DriveLayout;
    assert |ShardName(hour, brotli)[..10]| == 10 && |".gtfs-cache"| == 11;
  }

  function ShardAt(local: Local, path: string): Shard
    requires path in local && IsShard(path)
  {
    Shard(path, ToDriveKey(path).value, local[path].content, local[path].mtimeMs)
  }

  // The finalised shards of the directory, each once, in some order.
  ghost predicate IsScan(local: Local, scan: seq<Shard>) {
    && (forall s | s in scan :: s.path in local && IsShard(s.path) && s == ShardAt(local, s.path))
    && (forall path | path in local && IsShard(path) :: ShardAt(local, path) in scan)
    && (forall i, j | 0 <= i < j < |scan| :: scan[i].path != scan[j].path)
  }

  // -- The parts of a run ----------------------------------------------------------------

  // localMd5: by key, so a later shard of the same key replaces an earlier one.
  function Hashes(md5: Md5, scan: seq<Shard>): (hashes: map<string, string>)
    ensures forall s | s in scan :: s.key in hashes
  {
    if scan == [] then map[]
    else
      var n := |scan| - 1;
      assert scan == scan[..n] + [scan[n]];
      Hashes(md5, scan[..n])[scan[n].key := md5(scan[n].content)]
  }

  // The remote file of the shard's key has its size and its key's MD5.
  predicate Matches(md5: Md5, remote: Remote, hashes: map<string, string>, s: Shard) {
    && s.key in remote && s.key in hashes
    && |remote[s.key].content| == |s.content|
    && remote[s.key].hashed
    && md5(remote[s.key].content) == hashes[s.key]
  }

  // `missing`
  function Plan(md5: Md5, remote: Remote, hashes: map<string, string>, scan: seq<Shard>): seq<Shard> {
    if scan == [] then []
    else
      var n := |scan| - 1;
      Plan(md5, remote, hashes, scan[..n]) + if Matches(md5, remote, hashes, scan[n]) then [] else [scan[n]]
  }

  // `confirmed`
  function Confirmed(md5: Md5, remote: Remote, hashes: map<string, string>, scan: seq<Shard>): set<string> {
    if scan == [] then {}
    else
      var n := |scan| - 1;
      Confirmed(md5, remote, hashes, scan[..n]) + if Matches(md5, remote, hashes, scan[n]) then {scan[n].key} else {}
  }

  // One copyto: it completes, or it fails and leaves either nothing new or a
  // file of any contents under the key.
  datatype Copy = Copied(hashed: bool) | Aborted(left: Option<RemoteFile>)

  datatype Uploads = Uploads(remote: Remote, ok: bool)

  // The first failure ends the run.
  function UploadAll(remote: Remote, plan: seq<Shard>, copies: nat -> Copy): Uploads {
    if plan == [] then Uploads(remote, true)
    else
      var n := |plan| - 1;
      var before := UploadAll(remote, plan[..n], copies);
      if !before.ok then before
      else
        match copies(n)
        case Copied(hashed) => Uploads(before.remote[plan[n].key := RemoteFile(plan[n].content, hashed)], true)
        case Aborted(Some(left)) => Uploads(before.remote[plan[n].key := left], false)
        case Aborted(None) => Uploads(before.remote, false)
  }

  // The prune loop over the old shards; the first unlink that fails ends the run.
  function PruneAll(local: Local, aged: seq<Shard>, confirmed: set<string>, unlinks: nat -> bool): (Local, bool) {
    if aged == [] then (local, true)
    else
      var n := |aged| - 1;
      var before := PruneAll(local, aged[..n], confirmed, unlinks);
      if !before.1 || aged[n].key !in confirmed then before
      else if unlinks(n) then (before.0 - {aged[n].path}, true)
      else (before.0, false)
  }

  function OlderThan(scan: seq<Shard>, cutoffMs: int): seq<Shard> {
    if scan == [] then []
    else
      var n := |scan| - 1;
      OlderThan(scan[..n], cutoffMs) + if scan[n].mtimeMs < cutoffMs then [scan[n]] else []
  }

  datatype Options = Options(dryRun: bool, pruneBefore: Option<int>)

  datatype Host = Host(local: Local, remote: Remote)

  // One run of the script.
  function RunOf(md5: Md5, host: Host, scan: seq<Shard>, options: Options, copies: nat -> Copy,
                 unlinks: nat -> bool): Host {
    if options.dryRun then host
    else
      var hashes := Hashes(md5, scan);
      var uploads := UploadAll(host.remote, Plan(md5, host.remote, hashes, scan), copies);
      if !uploads.ok || options.pruneBefore.None? then Host(host.local, uploads.remote)
      else
        var confirmed := Confirmed(md5, uploads.remote, hashes, scan);
        Host(PruneAll(host.local, OlderThan(scan, options.pruneBefore.value), confirmed, unlinks).0, uploads.remote)
  }

  // -- The run, in place -------------------------------------------------------------------

  lemma {:induction false} FailedUploadStops(remote: Remote, plan: seq<Shard>, copies: nat -> Copy, i: nat)
    requires i <= |plan| && !UploadAll(remote, plan[..i], copies).ok
    ensures UploadAll(remote, plan, copies) == UploadAll(remote, plan[..i], copies)
    decreases |plan| - i
  {
    if i == |plan| {
      assert plan[..i] == plan;
    } else {
      assert plan[..i + 1][..i] == plan[..i];
      FailedUploadStops(remote, plan, copies, i + 1);
    }
  }

  lemma {:induction false} FailedUnlinkStops(local: Local, aged: seq<Shard>, confirmed: set<string>,
                                             unlinks: nat -> bool, i: nat)
    requires i <= |aged| && !PruneAll(local, aged[..i], confirmed, unlinks).1
    ensures PruneAll(local, aged, confirmed, unlinks) == PruneAll(local, aged[..i], confirmed, unlinks)
    decreases |aged| - i
  {
    if i == |aged| {
      assert aged[..i] == aged;
    } else {
      assert aged[..i + 1][..i] == aged[..i];
      FailedUnlinkStops(local, aged, confirmed, unlinks, i + 1);
    }
  }

  lemma {:induction false} PlanMembers(md5: Md5, remote: Remote, hashes: map<string, string>, scan: seq<Shard>)
    ensures forall s :: s in Plan(md5, remote, hashes, scan) <==> s in scan && !Matches(md5, remote, hashes, s)
  {
    if scan != [] {
      hide Matches;
      var n := |scan| - 1;
      PlanMembers(md5, remote, hashes, scan[..n]);
      assert scan == scan[..n] + [scan[n]];
    }
  }

  lemma {:induction false} ConfirmedMembers(md5: Md5, remote: Remote, hashes: map<string, string>, scan: seq<Shard>)
    ensures forall key :: key in Confirmed(md5, remote, hashes, scan) <==>
                          exists s | s in scan :: s.key == key && Matches(md5, remote, hashes, s)
  {
    if scan != [] {
      hide Matches;
      var n := |scan| - 1;
      ConfirmedMembers(md5, remote, hashes, scan[..n]);
      assert scan == scan[..n] + [scan[n]];
      forall key | exists s | s in scan :: s.key == key && Matches(md5, remote, hashes, s)
        ensures key in Confirmed(md5, remote, hashes, scan)
      {
      }
    }
  }

  // The hash kept for a key is that of the last shard with it.
  ghost predicate IsLastOf(scan: seq<Shard>, s: Shard) {
    exists i | 0 <= i < |scan| :: scan[i] == s && forall j | i < j < |scan| :: scan[j].key != s.key
  }

  lemma {:induction false} HashIsLast(md5: Md5, scan: seq<Shard>, key: string) returns (last: Shard)
    requires key in Hashes(md5, scan)
    ensures last in scan && last.key == key && IsLastOf(scan, last) && Hashes(md5, scan)[key] == md5(last.content)
  {
    var n := |scan| - 1;
    assert scan == scan[..n] + [scan[n]];
    if scan[n].key == key {
      last := scan[n];
    } else {
      last := HashIsLast(md5, scan[..n], key);
      var i :| 0 <= i < n && scan[..n][i] == last && forall j | i < j < n :: scan[..n][j].key != last.key;
      assert scan[i] == last && forall j | i < j < |scan| :: scan[j].key != last.key by {
        assert forall j | i < j < n :: scan[j] == scan[..n][j];
      }
    }
  }

  lemma OneLast(scan: seq<Shard>, a: Shard, b: Shard)
    requires IsLastOf(scan, a) && IsLastOf(scan, b) && a.key == b.key
    ensures a == b
  {
  }

  lemma HashesAreLast(md5: Md5, scan: seq<Shard>)
    ensures forall s | s in scan && IsLastOf(scan, s) ::
            s.key in Hashes(md5, scan) && Hashes(md5, scan)[s.key] == md5(s.content)
  {
    forall s | s in scan && IsLastOf(scan, s)
      ensures Hashes(md5, scan)[s.key] == md5(s.content)
    {
      var last := HashIsLast(md5, scan, s.key);
      OneLast(scan, s, last);
    }
  }

  lemma {:induction false} OldMembers(scan: seq<Shard>, cutoffMs: int)
    ensures forall s :: s in OlderThan(scan, cutoffMs) <==> s in scan && s.mtimeMs < cutoffMs
  {
    if scan != [] {
      var n := |scan| - 1;
      OldMembers(scan[..n], cutoffMs);
      assert scan == scan[..n] + [scan[n]];
    }
  }

  // The uploads succeed exactly when each copy does.
  lemma {:induction false} UploadsSucceedExactlyWhen(remote: Remote, plan: seq<Shard>, copies: nat -> Copy)
    ensures UploadAll(remote, plan, copies).ok <==> forall i: nat | i < |plan| :: copies(i).Copied?
  {
    if plan != [] {
      var n := |plan| - 1;
      UploadsSucceedExactlyWhen(remote, plan[..n], copies);
      assert |plan[..n]| == n;
    }
  }

  lemma {:induction false} PrunedWereConfirmed(local: Local, aged: seq<Shard>, confirmed: set<string>,
                                               unlinks: nat -> bool)
    ensures var after := PruneAll(local, aged, confirmed, unlinks).0;
            && after.Keys <= local.Keys
            && (forall path | path in after :: after[path] == local[path])
            && (forall path | path in local && path !in after ::
                  exists s | s in aged :: s.path == path && s.key in confirmed)
  {
    if aged != [] {
      var n := |aged| - 1;
      PrunedWereConfirmed(local, aged[..n], confirmed, unlinks);
      assert aged == aged[..n] + [aged[n]];
      var before, after :=
        PruneAll(local, aged[..n], confirmed, unlinks).0, PruneAll(local, aged, confirmed, unlinks).0;
      forall path | path in local && path !in after
        ensures exists s | s in aged :: s.path == path && s.key in confirmed
      {
        if path in before {
          assert aged[n].path == path && aged[n].key in confirmed && aged[n] in aged;
        } else {
          var s :| s in aged[..n] && s.path == path && s.key in confirmed;
          assert s in aged;
        }
      }
    }
  }

  // What leaves the disk in a run is older than the cutoff, nothing does unless all
  // was uploaded, and a dry run changes nothing.
  lemma RunSparesTheYoung(md5: Md5, host: Host, scan: seq<Shard>, options: Options, copies: nat -> Copy,
                          unlinks: nat -> bool)
    requires IsScan(host.local, scan)
    ensures var after := RunOf(md5, host, scan, options, copies, unlinks);
            && (options.dryRun ==> after == host)
            && (after.local != host.local ==>
                  forall i: nat | i < |Plan(md5, host.remote, Hashes(md5, scan), scan)| :: copies(i).Copied?)
            && (forall path | path in after.local :: path in host.local && after.local[path] == host.local[path])
            && forall path | path in host.local && path !in after.local ::
                 !options.dryRun && options.pruneBefore.Some?
                 && host.local[path].mtimeMs < options.pruneBefore.value
  {
    hide Hashes, Plan, Confirmed, UploadAll, PruneAll, OlderThan, IsShard, ToDriveKey, Split;
    if !options.dryRun && options.pruneBefore.Some? {
      var (hashes, cutoffMs) := (Hashes(md5, scan), options.pruneBefore.value);
      var uploads := UploadAll(host.remote, Plan(md5, host.remote, hashes, scan), copies);
      UploadsSucceedExactlyWhen(host.remote, Plan(md5, host.remote, hashes, scan), copies);
      OldMembers(scan, cutoffMs);
      PrunedWereConfirmed(host.local, OlderThan(scan, cutoffMs), Confirmed(md5, uploads.remote, hashes, scan), unlinks);
    }
  }

  ghost predicate Clean(copies: nat -> Copy) {
    forall i: nat :: copies(i) == Copied(true)
  }

  lemma LastOfPrefix(scan: seq<Shard>, s: Shard)
    requires s in scan && IsLastOf(scan, s)
    ensures var n := |scan| - 1;
            s == scan[n] || (s in scan[..n] && s.key != scan[n].key && IsLastOf(scan[..n], s))
  {
    var n := |scan| - 1;
    var i :| 0 <= i < |scan| && scan[i] == s && forall j | i < j < |scan| :: scan[j].key != s.key;
    if i < n {
      assert scan[..n][i] == s && forall j | i < j < n :: scan[..n][j] == scan[j];
    }
  }

  lemma {:induction false} CleanUploads(remote: Remote, plan: seq<Shard>, copies: nat -> Copy)
    requires Clean(copies)
    ensures UploadAll(remote, plan, copies).ok
    ensures forall s | s in plan && IsLastOf(plan, s) ::
              s.key in UploadAll(remote, plan, copies).remote
              && UploadAll(remote, plan, copies).remote[s.key] == RemoteFile(s.content, true)
  {
    if plan != [] {
      var n := |plan| - 1;
      hide IsLastOf;
      CleanUploads(remote, plan[..n], copies);
      var after := UploadAll(remote, plan, copies).remote;
      forall s | s in plan && IsLastOf(plan, s)
        ensures s.key in after && after[s.key] == RemoteFile(s.content, true)
      {
        LastOfPrefix(plan, s);
      }
    }
  }

  lemma LastIsConfirmed(md5: Md5, remote: Remote, scan: seq<Shard>, last: Shard)
    requires last in scan && IsLastOf(scan, last)
    requires last.key in remote && remote[last.key] == RemoteFile(last.content, true)
    ensures last.key in Confirmed(md5, remote, Hashes(md5, scan), scan)
  {
    hide Confirmed, Hashes;
    var found := HashIsLast(md5, scan, last.key);
    var i :| 0 <= i < |scan| && scan[i] == last && forall j | i < j < |scan| :: scan[j].key != last.key;
    var k :| 0 <= k < |scan| && scan[k] == found && forall j | k < j < |scan| :: scan[j].key != found.key;
    assert i == k;
    ConfirmedMembers(md5, remote, Hashes(md5, scan), scan);
    assert Matches(md5, remote, Hashes(md5, scan), last);
  }

  lemma {:induction false} UnlinksSucceed(local: Local, aged: seq<Shard>, confirmed: set<string>, unlinks: nat -> bool)
    requires forall i: nat :: unlinks(i)
    ensures PruneAll(local, aged, confirmed, unlinks).1
  {
    if aged != [] {
      UnlinksSucceed(local, aged[..|aged| - 1], confirmed, unlinks);
    }
  }

  lemma {:induction false} ConfirmedArePruned(local: Local, aged: seq<Shard>, confirmed: set<string>,
                                              unlinks: nat -> bool, s: Shard)
    requires (forall i: nat :: unlinks(i)) && s in aged && s.key in confirmed
    ensures PruneAll(local, aged, confirmed, unlinks).1 && s.path !in PruneAll(local, aged, confirmed, unlinks).0
  {
    var n := |aged| - 1;
    assert aged == aged[..n] + [aged[n]];
    UnlinksSucceed(local, aged, confirmed, unlinks);
    if s in aged[..n] {
      ConfirmedArePruned(local, aged[..n], confirmed, unlinks, s);
    }
  }

  // With no failures, what is past the cutoff under a confirmed key leaves.
  lemma RunPrunesTheOld(md5: Md5, host: Host, scan: seq<Shard>, options: Options, copies: nat -> Copy,
                        unlinks: nat -> bool)
    ensures !options.dryRun && options.pruneBefore.Some? && Clean(copies) && (forall i: nat :: unlinks(i)) ==>
              var after := RunOf(md5, host, scan, options, copies, unlinks);
              forall s, last | s in scan && last in scan && last.key == s.key && IsLastOf(scan, last)
                && s.key in after.remote && after.remote[s.key] == RemoteFile(last.content, true)
                && s.mtimeMs < options.pruneBefore.value :: s.path !in after.local
  {
    hide Hashes, Plan, Confirmed, UploadAll, PruneAll, OlderThan, IsLastOf, Matches;
    if !options.dryRun && options.pruneBefore.Some? && Clean(copies) && forall i: nat :: unlinks(i) {
      var (hashes, cutoffMs) := (Hashes(md5, scan), options.pruneBefore.value);
      var plan := Plan(md5, host.remote, hashes, scan);
      var uploads := UploadAll(host.remote, plan, copies);
      CleanUploads(host.remote, plan, copies);
      OldMembers(scan, cutoffMs);
      var confirmed := Confirmed(md5, uploads.remote, hashes, scan);
      forall s, last | s in scan && last in scan && last.key == s.key && IsLastOf(scan, last)
        && s.key in uploads.remote && uploads.remote[s.key] == RemoteFile(last.content, true) && s.mtimeMs < cutoffMs
        ensures s.path !in PruneAll(host.local, OlderThan(scan, cutoffMs), confirmed, unlinks).0
      {
        LastIsConfirmed(md5, uploads.remote, scan, last);
        ConfirmedArePruned(host.local, OlderThan(scan, cutoffMs), confirmed, unlinks, s);
      }
    }
  }

  class Uploader {
    const md5: Md5
    var local: Local
    var remote: Remote

    constructor (md5: Md5, local: Local, remote: Remote)
      ensures this.md5 == md5 && this.local == local && this.remote == remote
    {
      this.md5, this.local, this.remote := md5, local, remote;
    }

    method HashAll(scan: seq<Shard>) returns (hashes: map<string, string>)
      ensures hashes == Hashes(md5, scan)
      ensures forall s | s in scan && IsLastOf(scan, s) :: s.key in hashes && hashes[s.key] == md5(s.content)
    {
      HashesAreLast(md5, scan);
      hashes := map[];
      for i := 0 to |scan|
        invariant hashes == Hashes(md5, scan[..i])
      {
        assert scan[..i + 1][..i] == scan[..i];
        hashes := hashes[scan[i].key := md5(scan[i].content)];
      }
      assert scan[..|scan|] == scan;
    }

    method PlanUploads(listing: Remote, hashes: map<string, string>, scan: seq<Shard>) returns (missing: seq<Shard>)
      ensures missing == Plan(md5, listing, hashes, scan)
      ensures forall s :: s in missing <==>
                && s in scan
                && !(s.key in listing && s.key in hashes && listing[s.key].hashed
                     && |listing[s.key].content| == |s.content| && md5(listing[s.key].content) == hashes[s.key])
    {
      PlanMembers(md5, listing, hashes, scan);
      missing := [];
      for i := 0 to |scan|
        invariant missing == Plan(md5, listing, hashes, scan[..i])
      {
        assert scan[..i + 1][..i] == scan[..i];
        if !Matches(md5, listing, hashes, scan[i]) {
          missing := missing + [scan[i]];
        }
      }
      assert scan[..|scan|] == scan;
    }

    method Upload(plan: seq<Shard>, copies: nat -> Copy) returns (ok: bool)
      modifies this`remote
      ensures Uploads(remote, ok) == UploadAll(old(remote), plan, copies)
    {
      ok := true;
      for i := 0 to |plan|
        invariant ok && Uploads(remote, true) == UploadAll(old(remote), plan[..i], copies)
      {
        assert plan[..i + 1][..i] == plan[..i];
        match copies(i)
        case Copied(hashed) =>
          remote := remote[plan[i].key := RemoteFile(plan[i].content, hashed)];
        case Aborted(left) =>
          if left.Some? {
            remote := remote[plan[i].key := left.value];
          }
          FailedUploadStops(old(remote), plan, copies, i + 1);
          return false;
      }
      assert plan[..|plan|] == plan;
    }

    method Confirm(hashes: map<string, string>, scan: seq<Shard>) returns (confirmed: set<string>)
      ensures confirmed == Confirmed(md5, remote, hashes, scan)
      ensures forall key :: key in confirmed <==>
                exists s | s in scan :: s.key == key && key in remote && key in hashes && remote[key].hashed
                  && |remote[key].content| == |s.content| && md5(remote[key].content) == hashes[key]
    {
      ConfirmedMembers(md5, remote, hashes, scan);
      confirmed := {};
      for i := 0 to |scan|
        invariant confirmed == Confirmed(md5, remote, hashes, scan[..i])
      {
        assert scan[..i + 1][..i] == scan[..i];
        if Matches(md5, remote, hashes, scan[i]) {
          confirmed := confirmed + {scan[i].key};
        }
      }
      assert scan[..|scan|] == scan;
    }

    method Prune(aged: seq<Shard>, confirmed: set<string>, unlinks: nat -> bool)
      modifies this`local
      ensures local == PruneAll(old(local), aged, confirmed, unlinks).0
    {
      for i := 0 to |aged|
        invariant (local, true) == PruneAll(old(local), aged[..i], confirmed, unlinks)
      {
        assert aged[..i + 1][..i] == aged[..i];
        if aged[i].key in confirmed {
          if !unlinks(i) {
            FailedUnlinkStops(old(local), aged, confirmed, unlinks, i + 1);
            return;
          }
          local := local - {aged[i].path};
        }
      }
      assert aged[..|aged|] == aged;
    }

    method Run(scan: seq<Shard>, options: Options, copies: nat -> Copy, unlinks: nat -> bool)
      requires IsScan(local, scan)
      modifies this
      ensures Host(local, remote) == RunOf(md5, Host(old(local), old(remote)), scan, options, copies, unlinks)
      // A dry run changes neither disk, and no run changes a file it leaves.
      ensures options.dryRun ==> local == old(local) && remote == old(remote)
      ensures forall path | path in local :: path in old(local) && local[path] == old(local)[path]
      // A shard that has left the disk was past retention.
      ensures forall path | path in old(local) && path !in local ::
                !options.dryRun && options.pruneBefore.Some? && old(local)[path].mtimeMs < options.pruneBefore.value
      // Nothing leaves it in a run that could not make every copy.
      ensures local != old(local) ==>
                forall i: nat | i < |Plan(md5, old(remote), Hashes(md5, scan), scan)| :: copies(i).Copied?
      // If nothing fails, every shard past retention leaves whose key holds what
      // was hashed for it.
      ensures !options.dryRun && options.pruneBefore.Some? && Clean(copies) && (forall i: nat :: unlinks(i)) ==>
                forall s, last | s in scan && last in scan && last.key == s.key && IsLastOf(scan, last)
                  && s.key in remote && remote[s.key] == RemoteFile(last.content, true)
                  && s.mtimeMs < options.pruneBefore.value :: s.path !in local
    {
      RunSparesTheYoung(md5, Host(local, remote), scan, options, copies, unlinks);
      RunPrunesTheOld(md5, Host(local, remote), scan, options, copies, unlinks);
      hide Hashes, Plan, Confirmed, UploadAll, PruneAll, IsScan, IsLastOf, Clean;
      var hashes := HashAll(scan);
      var missing := PlanUploads(remote, hashes, scan);
      if !options.dryRun {
        var ok := Upload(missing, copies);
        if !ok {
          return;
        }
      }
      var confirmed := Confirm(hashes, scan);
      if options.pruneBefore.Some? && !options.dryRun {
        Prune(OlderThan(scan, options.pruneBefore.value), confirmed, unlinks);
      }
    }
  }

  // -- What the parts amount to --------------------------------------------------------------

  ghost predicate OneContentPerKey(scan: seq<Shard>) {
    forall s, t | s in scan && t in scan && s.key == t.key :: s.content == t.content
  }

  lemma HashOfOwn(md5: Md5, scan: seq<Shard>, s: Shard)
    requires OneContentPerKey(scan) && s in scan
    ensures s.key in Hashes(md5, scan) && Hashes(md5, scan)[s.key] == md5(s.content)
  {
    var last := HashIsLast(md5, scan, s.key);
  }

  // A confirmed shard's own bytes are remote.
  lemma ConfirmedIsRemote(md5: Md5, remote: Remote, scan: seq<Shard>, s: Shard)
    requires Injective(md5) && OneContentPerKey(scan) && s in scan
    ensures s.key in Confirmed(md5, remote, Hashes(md5, scan), scan) <==>
            s.key in remote && remote[s.key] == RemoteFile(s.content, true)
  {
    hide Confirmed, Hashes;
    var hashes := Hashes(md5, scan);
    ConfirmedMembers(md5, remote, hashes, scan);
    HashOfOwn(md5, scan, s);
    if s.key in Confirmed(md5, remote, hashes, scan) {
      var t :| t in scan && t.key == s.key && Matches(md5, remote, hashes, t);
      assert md5(remote[s.key].content) == md5(s.content);
    } else {
      assert !Matches(md5, remote, hashes, s);
    }
  }

  // On one listing, the shards to upload are exactly those not confirmed.
  lemma PlanIsComplement(md5: Md5, remote: Remote, scan: seq<Shard>, s: Shard)
    requires Injective(md5) && OneContentPerKey(scan) && s in scan
    ensures s in Plan(md5, remote, Hashes(md5, scan), scan) <==>
            s.key !in Confirmed(md5, remote, Hashes(md5, scan), scan)
  {
    hide Confirmed, Hashes, Plan;
    var hashes := Hashes(md5, scan);
    PlanMembers(md5, remote, hashes, scan);
    ConfirmedIsRemote(md5, remote, scan, s);
    HashOfOwn(md5, scan, s);
    if Matches(md5, remote, hashes, s) {
      assert md5(remote[s.key].content) == md5(s.content);
    }
  }

  // Uploads add keys and never remove one, and touch only planned keys.
  lemma {:induction false} UploadsOnlyAdd(remote: Remote, plan: seq<Shard>, copies: nat -> Copy)
    ensures remote.Keys <= UploadAll(remote, plan, copies).remote.Keys
    ensures forall key | key in remote && (forall s | s in plan :: s.key != key) ::
              UploadAll(remote, plan, copies).remote[key] == remote[key]
  {
    if plan != [] {
      var n := |plan| - 1;
      UploadsOnlyAdd(remote, plan[..n], copies);
      assert plan == plan[..n] + [plan[n]];
      var before, after := UploadAll(remote, plan[..n], copies), UploadAll(remote, plan, copies);
      forall key | key in remote && (forall s | s in plan :: s.key != key)
        ensures after.remote[key] == remote[key]
      {
        assert forall s | s in plan[..n] :: s in plan;
        assert plan[n] in plan;
      }
    }
  }

  lemma {:induction false} OnlyPlannedKeys(remote: Remote, plan: seq<Shard>, copies: nat -> Copy, key: string)
    requires forall s | s in plan :: s.key != key
    ensures var after := UploadAll(remote, plan, copies).remote;
            (key in after <==> key in remote) && (key in remote ==> after[key] == remote[key])
  {
    if plan != [] {
      var n := |plan| - 1;
      assert plan == plan[..n] + [plan[n]] && plan[n] in plan;
      OnlyPlannedKeys(remote, plan[..n], copies, key);
    }
  }

  // After a copy that fails nothing more is uploaded.
  lemma FailedCopyEndsUploads(remote: Remote, plan: seq<Shard>, copies: nat -> Copy, i: nat, key: string)
    requires i < |plan| && copies(i).Aborted? && forall s | s in plan[..i + 1] :: s.key != key
    ensures var after := UploadAll(remote, plan, copies).remote;
            (key in after <==> key in remote) && (key in remote ==> after[key] == remote[key])
  {
    UploadsSucceedExactlyWhen(remote, plan[..i + 1], copies);
    FailedUploadStops(remote, plan, copies, i + 1);
    OnlyPlannedKeys(remote, plan[..i + 1], copies, key);
  }

  // After an unlink that fails nothing more leaves the disk.
  lemma FailedUnlinkEndsPruning(local: Local, aged: seq<Shard>, confirmed: set<string>, unlinks: nat -> bool, i: nat,
                                path: string)
    requires i < |aged| && aged[i].key in confirmed && !unlinks(i)
    requires path in local && forall s | s in aged[..i] :: s.path != path
    ensures path in PruneAll(local, aged, confirmed, unlinks).0
  {
    var upTo := aged[..i + 1];
    assert upTo[..i] == aged[..i] && upTo[i] == aged[i];
    FailedUnlinkStops(local, aged, confirmed, unlinks, i + 1);
    PrunedWereConfirmed(local, aged[..i], confirmed, unlinks);
  }

  lemma LastOf(scan: seq<Shard>, s: Shard) returns (last: Shard)
    requires s in scan
    ensures last in scan && last.key == s.key && IsLastOf(scan, last)
  {
    last := HashIsLast(_ => "", scan, s.key);
  }

  // After an error-free run of uploads every recognised shard is confirmed.
  lemma CleanUploadsConfirmAll(md5: Md5, remote: Remote, scan: seq<Shard>, copies: nat -> Copy, s: Shard)
    requires Injective(md5) && OneContentPerKey(scan) && Clean(copies) && s in scan
    ensures var after := UploadAll(remote, Plan(md5, remote, Hashes(md5, scan), scan), copies);
            after.ok && s.key in Confirmed(md5, after.remote, Hashes(md5, scan), scan)
            && s.key in after.remote && after.remote[s.key] == RemoteFile(s.content, true)
  {
    hide Confirmed, Hashes, Plan, UploadAll, Matches, IsLastOf;
    var hashes := Hashes(md5, scan);
    var plan := Plan(md5, remote, hashes, scan);
    var after := UploadAll(remote, plan, copies);
    PlanMembers(md5, remote, hashes, scan);
    CleanUploads(remote, plan, copies);
    UploadsOnlyAdd(remote, plan, copies);
    ConfirmedIsRemote(md5, after.remote, scan, s);
    ConfirmedIsRemote(md5, remote, scan, s);
    PlanIsComplement(md5, remote, scan, s);
    if planned :| planned in plan && planned.key == s.key {
      var last := LastOf(plan, planned);
      assert last in scan && last.content == s.content;
    } else {
      assert s !in plan;
    }
  }

  // ... and the next run has nothing to upload.
  lemma NextPlanIsEmpty(md5: Md5, remote: Remote, scan: seq<Shard>, copies: nat -> Copy)
    requires Injective(md5) && OneContentPerKey(scan) && Clean(copies)
    ensures var after := UploadAll(remote, Plan(md5, remote, Hashes(md5, scan), scan), copies);
            Plan(md5, after.remote, Hashes(md5, scan), scan) == []
  {
    hide Confirmed, Hashes, Plan, UploadAll, Matches, Injective, OneContentPerKey, Clean;
    var hashes := Hashes(md5, scan);
    var after := UploadAll(remote, Plan(md5, remote, hashes, scan), copies);
    var next := Plan(md5, after.remote, hashes, scan);
    PlanMembers(md5, after.remote, hashes, scan);
    if next != [] {
      assert next[0] in next;
      CleanUploadsConfirmAll(md5, remote, scan, copies, next[0]);
      PlanIsComplement(md5, after.remote, scan, next[0]);
      assert false;
    }
  }

  // -- A whole run -----------------------------------------------------------------------

  lemma ScanKeys(local: Local, scan: seq<Shard>)
    requires IsScan(local, scan)
    requires forall p, q | p in local && q in local && IsShard(p) && IsShard(q)
             && ToDriveKey(p) == ToDriveKey(q) :: p == q
    ensures OneContentPerKey(scan)
  {
    hide ToDriveKey, Split;
    forall s, t | s in scan && t in scan && s.key == t.key
      ensures s.content == t.content
    {
      assert s.path == t.path;
    }
  }

  // What any run does: it keeps every remote key, leaves alone the remote files
  // of keys it has no shard for, and takes away from the disk only shards whose
  // own bytes are remote under their key.
  lemma RunIsSafe(md5: Md5, host: Host, scan: seq<Shard>, options: Options, copies: nat -> Copy, unlinks: nat -> bool)
    requires Injective(md5) && OneContentPerKey(scan)
    ensures var after := RunOf(md5, host, scan, options, copies, unlinks);
            && host.remote.Keys <= after.remote.Keys
            && (forall key | key in host.remote && (forall s | s in scan :: s.key != key) ::
                  after.remote[key] == host.remote[key])
            && (forall path | path in after.local :: path in host.local && after.local[path] == host.local[path])
            && (forall path | path in host.local && path !in after.local ::
                  exists s | s in scan :: s.path == path && s.key in after.remote
                                          && after.remote[s.key] == RemoteFile(s.content, true))
  {
    hide Confirmed, Hashes, Plan, UploadAll, Matches, Injective, OneContentPerKey, PruneAll, OlderThan;
    if !options.dryRun {
      var hashes := Hashes(md5, scan);
      var plan := Plan(md5, host.remote, hashes, scan);
      var uploads := UploadAll(host.remote, plan, copies);
      PlanMembers(md5, host.remote, hashes, scan);
      UploadsOnlyAdd(host.remote, plan, copies);
      if uploads.ok && options.pruneBefore.Some? {
        var confirmed := Confirmed(md5, uploads.remote, hashes, scan);
        var aged := OlderThan(scan, options.pruneBefore.value);
        OldMembers(scan, options.pruneBefore.value);
        PrunedWereConfirmed(host.local, aged, confirmed, unlinks);
        forall s | s in aged && s.key in confirmed
          ensures s in scan && s.key in uploads.remote && uploads.remote[s.key] == RemoteFile(s.content, true)
        {
          ConfirmedIsRemote(md5, uploads.remote, scan, s);
        }
      }
    }
  }

  // Nothing that a run removes is lost.
  ghost predicate Safe(md5: Md5, host: Host, scan: seq<Shard>, options: Options, copies: nat -> Copy,
                       unlinks: nat -> bool) {
    var after := RunOf(md5, host, scan, options, copies, unlinks);
    forall s | s in scan && s.path !in after.local :: s.key in after.remote && after.remote[s.key].content == s.content
  }

  lemma {:induction false} NothingRemote(md5: Md5, hashes: map<string, string>, scan: seq<Shard>)
    ensures Plan(md5, map[], hashes, scan) == scan
  {
    if scan != [] {
      NothingRemote(md5, hashes, scan[..|scan| - 1]);
      assert scan == scan[..|scan| - 1] + [scan[|scan| - 1]];
    }
  }

  // Two paths of one key and different contents: a first, error-free run with an
  // empty remote confirms the key by the last of them, then unlinks both.
  lemma OneOfTwoIsLost(md5: Md5, local: Local, scan: seq<Shard>, s: Shard, copies: nat -> Copy, unlinks: nat -> bool,
                       cutoffMs: int)
    requires IsScan(local, scan) && s in scan && Clean(copies) && forall i: nat :: unlinks(i)
    requires s.mtimeMs < cutoffMs
    requires exists last | last in scan :: IsLastOf(scan, last) && last.key == s.key && last.content != s.content
    ensures !Safe(md5, Host(local, map[]), scan, Options(false, Some(cutoffMs)), copies, unlinks)
  {
    hide Confirmed, Hashes, Plan, UploadAll, PruneAll, OlderThan, IsShard, ToDriveKey, Matches;
    var last :| last in scan && IsLastOf(scan, last) && last.key == s.key && last.content != s.content;
    var hashes := Hashes(md5, scan);
    NothingRemote(md5, hashes, scan);
    var uploads := UploadAll(map[], scan, copies);
    CleanUploads(map[], scan, copies);
    assert uploads.remote[s.key] == RemoteFile(last.content, true);
    var confirmed := Confirmed(md5, uploads.remote, hashes, scan);
    LastIsConfirmed(md5, uploads.remote, scan, last);
    var aged := OlderThan(scan, cutoffMs);
    OldMembers(scan, cutoffMs);
    ConfirmedArePruned(local, aged, confirmed, unlinks, s);
  }

  lemma RunIsSafeForAll(md5: Md5, host: Host, scan: seq<Shard>, options: Options, copies: nat -> Copy,
                        unlinks: nat -> bool)
    requires Injective(md5) && IsScan(host.local, scan) && OneContentPerKey(scan)
    ensures Safe(md5, host, scan, options, copies, unlinks)
  {
    hide RunOf, IsShard, ToDriveKey;
    RunIsSafe(md5, host, scan, options, copies, unlinks);
    var after := RunOf(md5, host, scan, options, copies, unlinks);
    forall s | s in scan && s.path !in after.local
      ensures s.key in after.remote && after.remote[s.key].content == s.content
    {
      var t :| t in scan && t.path == s.path && t.key in after.remote
        && after.remote[t.key] == RemoteFile(t.content, true);
      assert s == t;
    }
  }

  lemma CleanRunRemote(md5: Md5, host: Host, scan: seq<Shard>, options: Options, copies: nat -> Copy,
                       unlinks: nat -> bool)
    requires !options.dryRun
    ensures RunOf(md5, host, scan, options, copies, unlinks).remote ==
            UploadAll(host.remote, Plan(md5, host.remote, Hashes(md5, scan), scan), copies).remote
  {
  }

  // With one content a key, a run in which nothing fails takes off the disk exactly
  // the scanned shards past the cutoff.
  lemma CleanRunPrunesExactlyTheOld(md5: Md5, host: Host, scan: seq<Shard>, cutoffMs: int, copies: nat -> Copy,
                                    unlinks: nat -> bool)
    requires Injective(md5) && IsScan(host.local, scan) && OneContentPerKey(scan)
    requires Clean(copies) && forall i: nat :: unlinks(i)
    ensures var after := RunOf(md5, host, scan, Options(false, Some(cutoffMs)), copies, unlinks);
            forall s | s in scan :: s.path !in after.local <==> s.mtimeMs < cutoffMs
  {
    hide RunOf, IsShard, ToDriveKey, Split, Clean, IsLastOf, UploadAll, Plan, Hashes, Confirmed, Injective;
    var options := Options(false, Some(cutoffMs));
    RunSparesTheYoung(md5, host, scan, options, copies, unlinks);
    RunPrunesTheOld(md5, host, scan, options, copies, unlinks);
    var after := RunOf(md5, host, scan, options, copies, unlinks);
    forall s | s in scan
      ensures s.path !in after.local <==> s.mtimeMs < cutoffMs
    {
      CleanUploadsConfirmAll(md5, host.remote, scan, copies, s);
      CleanRunRemote(md5, host, scan, options, copies, unlinks);
      var last := LastOf(scan, s);
      assert last.content == s.content;
    }
  }

  // Pruning is safe for every remote folder and every way the run can turn out
  // exactly when shards that share a key share their contents.
  lemma PruneIsSafeExactlyWhen(md5: Md5, local: Local, scan: seq<Shard>)
    requires Injective(md5) && IsScan(local, scan)
    ensures (forall remote: Remote, options: Options, copies: nat -> Copy, unlinks: nat -> bool ::
               Safe(md5, Host(local, remote), scan, options, copies, unlinks)) <==> OneContentPerKey(scan)
  {
    hide RunOf, Safe, IsShard, ToDriveKey;
    if OneContentPerKey(scan) {
      forall remote: Remote, options: Options, copies: nat -> Copy, unlinks: nat -> bool
        ensures Safe(md5, Host(local, remote), scan, options, copies, unlinks)
      {
        RunIsSafeForAll(md5, Host(local, remote), scan, options, copies, unlinks);
      }
    } else {
      var s, t :| s in scan && t in scan && s.key == t.key && s.content != t.content;
      var last := LastOf(scan, s);
      var lost := if s.content != last.content then s else t;
      var copies: nat -> Copy := _ => Copied(true);
      var unlinks: nat -> bool := _ => true;
      OneOfTwoIsLost(md5, local, scan, lost, copies, unlinks, lost.mtimeMs + 1);
    }
  }

  // -- Any number of runs ------------------------------------------------------------------

  // The two disks, and the contents every finalised shard had when it was made.
  datatype System = System(host: Host, made: map<string, seq<int>>)

  datatype Event =
    | Finalise(path: string, file: File)
    | Sync(scan: seq<Shard>, options: Options, copies: nat -> Copy, unlinks: nat -> bool)

  // Finalising puts the file under its name, over any file of that name. A scan
  // that is not one of the present disk does not happen.
  ghost function Step(md5: Md5, s: System, event: Event): System {
    match event
    case Finalise(path, file) =>
      if IsShard(path) then System(s.host.(local := s.host.local[path := file]), s.made[path := file.content]) else s
    case Sync(scan, options, copies, unlinks) =>
      if IsScan(s.host.local, scan) then s.(host := RunOf(md5, s.host, scan, options, copies, unlinks)) else s
  }

  ghost function Run(md5: Md5, s: System, events: seq<Event>): System
    decreases |events|
  {
    if events == [] then s else Step(md5, Run(md5, s, events[..|events| - 1]), events[|events| - 1])
  }

  ghost predicate OnDisk(s: System, path: string) {
    path in s.made && path in s.host.local && s.host.local[path].content == s.made[path]
  }

  ghost predicate InDrive(s: System, path: string) {
    && path in s.made && ToDriveKey(path).Some? && ToDriveKey(path).value in s.host.remote
    && s.host.remote[ToDriveKey(path).value].content == s.made[path]
  }

  ghost predicate Inv(s: System) {
    && (forall path | path in s.made :: IsShard(path))
    && (forall p, q | p in s.made && q in s.made && ToDriveKey(p) == ToDriveKey(q) :: p == q)
    && (forall path | path in s.host.local && IsShard(path) :: OnDisk(s, path))
    && (forall path | path in s.made :: OnDisk(s, path) || InDrive(s, path))
  }

  // No scanned shard has the key of one that has left the disk.
  lemma GoneIsNotScanned(s: System, scan: seq<Shard>, path: string)
    requires Inv(s) && IsScan(s.host.local, scan) && path in s.made && path !in s.host.local
    ensures ToDriveKey(path).Some? && forall t | t in scan :: t.key != ToDriveKey(path).value
  {
    hide ToDriveKey, Split;
    assert IsShard(path);
    forall t | t in scan
      ensures t.key != ToDriveKey(path).value
    {
      assert OnDisk(s, t.path);
    }
  }

  lemma InvScanKeys(s: System, scan: seq<Shard>)
    requires Inv(s) && IsScan(s.host.local, scan)
    ensures OneContentPerKey(scan)
  {
    hide IsShard, ToDriveKey;
    forall p, q | p in s.host.local && q in s.host.local && IsShard(p) && IsShard(q) && ToDriveKey(p) == ToDriveKey(q)
      ensures p == q
    {
      assert OnDisk(s, p) && OnDisk(s, q);
    }
    ScanKeys(s.host.local, scan);
  }

  lemma SyncKeepsShard(md5: Md5, s: System, scan: seq<Shard>, options: Options, copies: nat -> Copy,
                       unlinks: nat -> bool, path: string)
    requires Injective(md5) && Inv(s) && IsScan(s.host.local, scan) && path in s.made
    ensures var after := s.(host := RunOf(md5, s.host, scan, options, copies, unlinks));
            OnDisk(after, path) || InDrive(after, path)
  {
    InvScanKeys(s, scan);
    RunIsSafe(md5, s.host, scan, options, copies, unlinks);
    assert OnDisk(s, path) || InDrive(s, path);
    assert path in s.host.local && IsShard(path) ==> OnDisk(s, path);
    assert IsShard(path);
    if path !in s.host.local {
      GoneIsNotScanned(s, scan, path);
    }
    hide RunOf, ToDriveKey, Split, Inv, Injective, OneContentPerKey;
    var after := s.(host := RunOf(md5, s.host, scan, options, copies, unlinks));
    if path in s.host.local && path !in after.host.local {
      var t :| t in scan && t.path == path && t.key in after.host.remote
               && after.host.remote[t.key] == RemoteFile(t.content, true);
      assert t == ShardAt(s.host.local, path);
    }
  }

  lemma SyncKeepsInv(md5: Md5, s: System, scan: seq<Shard>, options: Options, copies: nat -> Copy, unlinks: nat -> bool)
    requires Injective(md5) && Inv(s) && IsScan(s.host.local, scan)
    ensures Inv(s.(host := RunOf(md5, s.host, scan, options, copies, unlinks)))
  {
    hide RunOf, IsShard, ToDriveKey, Split, IsScan, Injective;
    InvScanKeys(s, scan);
    RunIsSafe(md5, s.host, scan, options, copies, unlinks);
    var after := s.(host := RunOf(md5, s.host, scan, options, copies, unlinks));
    forall path | path in s.made
      ensures OnDisk(after, path) || InDrive(after, path)
    {
      SyncKeepsShard(md5, s, scan, options, copies, unlinks, path);
    }
    forall path | path in after.host.local && IsShard(path)
      ensures OnDisk(after, path)
    {
      assert OnDisk(s, path);
    }
  }

  // A shard finalised under the key of another must be that shard again.
  ghost predicate KeyIsOwn(s: System, event: Event) {
    event.Finalise? && IsShard(event.path) ==>
      forall path | path in s.made && ToDriveKey(path) == ToDriveKey(event.path) :: path == event.path
  }

  // No shard is finalised twice, nor under the key of another.
  ghost predicate FinalisedOnce(s: System, event: Event) {
    event.Finalise? && IsShard(event.path) ==>
      forall path | path in s.made :: ToDriveKey(path) != ToDriveKey(event.path)
  }

  lemma FinaliseKeepsInv(md5: Md5, s: System, path: string, file: File)
    requires Inv(s) && KeyIsOwn(s, Finalise(path, file))
    ensures Inv(Step(md5, s, Finalise(path, file)))
  {
    hide ToDriveKey, RunOf, Split;
    var after := Step(md5, s, Finalise(path, file));
    if IsShard(path) {
      forall other | other in after.made
        ensures IsShard(other) && (OnDisk(after, other) || InDrive(after, other))
      {
        if other != path {
          assert OnDisk(s, other) || InDrive(s, other);
        }
      }
      forall other | other in after.host.local && IsShard(other)
        ensures OnDisk(after, other)
      {
        if other != path {
          assert OnDisk(s, other);
        }
      }
    }
  }

  // Every finalisation of the run is a shard's first.
  ghost predicate OnceEach(md5: Md5, s: System, events: seq<Event>) {
    forall i | 0 <= i < |events| :: FinalisedOnce(Run(md5, s, events[..i]), events[i])
  }

  lemma StepKeepsInv(md5: Md5, s: System, event: Event)
    requires Injective(md5) && Inv(s) && FinalisedOnce(s, event)
    ensures Inv(Step(md5, s, event))
    ensures s.host.remote.Keys <= Step(md5, s, event).host.remote.Keys
    ensures forall path | path in s.made ::
            path in Step(md5, s, event).made && Step(md5, s, event).made[path] == s.made[path]
  {
    hide RunOf, ToDriveKey, IsShard, Inv, Injective;
    match event
    case Finalise(path, file) =>
      FinaliseKeepsInv(md5, s, path, file);
    case Sync(scan, options, copies, unlinks) =>
      if IsScan(s.host.local, scan) {
        SyncKeepsInv(md5, s, scan, options, copies, unlinks);
        InvScanKeys(s, scan);
        RunIsSafe(md5, s.host, scan, options, copies, unlinks);
      }
  }

  // Every shard ever finalised, over any number of runs, interrupted uploads,
  // missing hashes and failed unlinks, is still whole on the disk or in the
  // remote folder, under the key its path has, if none is finalised twice.
  lemma {:induction false} EveryShardIsRecoverable(md5: Md5, s: System, events: seq<Event>)
    requires Injective(md5) && Inv(s) && OnceEach(md5, s, events)
    ensures Inv(Run(md5, s, events))
    ensures s.host.remote.Keys <= Run(md5, s, events).host.remote.Keys
    ensures forall path | path in s.made ::
              path in Run(md5, s, events).made && Run(md5, s, events).made[path] == s.made[path]
    decreases |events|
  {
    hide Injective, Inv, RunOf, ToDriveKey, IsShard, IsScan, FinalisedOnce, Step;
    if events != [] {
      var n := |events| - 1;
      forall i | 0 <= i < n
        ensures FinalisedOnce(Run(md5, s, events[..n][..i]), events[..n][i])
      {
        assert events[..n][..i] == events[..i];
      }
      EveryShardIsRecoverable(md5, s, events[..n]);
      assert FinalisedOnce(Run(md5, s, events[..n]), events[n]);
      StepKeepsInv(md5, Run(md5, s, events[..n]), events[n]);
    }
  }

  // An error-free run leaves the remote folder complete: it holds every shard
  // ever finalised, those pruned long ago included.
  lemma ErrorFreeRunIsComplete(md5: Md5, s: System, scan: seq<Shard>, pruneBefore: Option<int>, copies: nat -> Copy,
                               unlinks: nat -> bool, path: string)
    requires Injective(md5) && Inv(s) && IsScan(s.host.local, scan) && Clean(copies) && path in s.made
    ensures InDrive(Step(md5, s, Sync(scan, Options(false, pruneBefore), copies, unlinks)), path)
  {
    var options := Options(false, pruneBefore);
    var after := Step(md5, s, Sync(scan, options, copies, unlinks));
    assert IsShard(path) && (path in s.host.local ==> OnDisk(s, path)) && (OnDisk(s, path) || InDrive(s, path));
    InvScanKeys(s, scan);
    if path !in s.host.local {
      GoneIsNotScanned(s, scan, path);
    }
    hide Inv, Hashes, Plan, Confirmed, UploadAll, PruneAll, OlderThan, Injective, OneContentPerKey, Clean,
      ToDriveKey, Split;
    if path in s.host.local {
      var shard := ShardAt(s.host.local, path);
      assert shard in scan;
      CleanUploadsConfirmAll(md5, s.host.remote, scan, copies, shard);
    } else {
      hide RunOf;
      RunIsSafe(md5, s.host, scan, options, copies, unlinks);
    }
  }

  // -- A shard finalised again ---------------------------------------------------------------

  // These contents can be had back for the path.
  ghost predicate CanRecover(s: System, path: string, content: seq<int>) {
    || (path in s.host.local && s.host.local[path].content == content)
    || (ToDriveKey(path).Some? && ToDriveKey(path).value in s.host.remote
        && s.host.remote[ToDriveKey(path).value].content == content)
  }

  // Finalising a shard a second time leaves its first contents only if they are
  // in the remote folder already, and the next error-free run overwrites them
  // there: then they are lost unless the second contents are the same.
  lemma FirstContentsSurviveExactlyWhen(md5: Md5, s: System, path: string, file: File, scan: seq<Shard>,
                                        pruneBefore: Option<int>, copies: nat -> Copy, unlinks: nat -> bool)
    requires Injective(md5) && Inv(s) && path in s.made && Clean(copies)
    requires IsScan(Step(md5, s, Finalise(path, file)).host.local, scan)
    ensures var again := Step(md5, s, Finalise(path, file));
            var synced := Step(md5, again, Sync(scan, Options(false, pruneBefore), copies, unlinks));
            && (CanRecover(again, path, s.made[path]) <==> file.content == s.made[path] || InDrive(s, path))
            && (CanRecover(synced, path, s.made[path]) <==> file.content == s.made[path])
  {
    hide RunOf, ToDriveKey, Split, Injective, Clean;
    var again := Step(md5, s, Finalise(path, file));
    assert IsShard(path);
    FinaliseKeepsInv(md5, s, path, file);
    hide Inv;
    ErrorFreeRunIsComplete(md5, again, scan, pruneBefore, copies, unlinks, path);
    InvScanKeys(again, scan);
    RunIsSafe(md5, again.host, scan, Options(false, pruneBefore), copies, unlinks);
  }
}
