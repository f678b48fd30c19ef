// Where a local shard goes in the remote folder: toDriveKey of
// scripts/upload-archive.ts, on the paths src/archive/archive.ts writes.
module DriveKeys {
  import opened Wrappers
  import opened Text
  import Calendar

  // s.split("/")
  function Split(s: string): (parts: seq<string>)
    ensures |parts| >= 1
    ensures forall i | 0 <= i < |parts| :: '/' !in parts[i]
  {
    if s == [] then [""]
    else
      var rest := Split(s[1..]);
      if s[0] == '/' then [""] + rest else [[s[0]] + rest[0]] + rest[1..]
  }

  function Join(parts: seq<string>): string
    requires |parts| >= 1
  {
    if |parts| == 1 then parts[0] else parts[0] + "/" + Join(parts[1..])
  }

  lemma {:induction false} SplitOfPart(a: string)
    requires '/' !in a
    ensures Split(a) == [a]
  {
    if a != [] {
      SplitOfPart(a[1..]);
      assert a == [a[0]] + a[1..];
    }
  }

  lemma {:induction false} SplitAfterPart(a: string, x: string)
    requires '/' !in a
    ensures Split(a + "/" + x) == [a] + Split(x)
  {
    var s := a + "/" + x;
    if a == [] {
      assert s[1..] == x;
    } else {
      SplitAfterPart(a[1..], x);
      assert s[1..] == a[1..] + "/" + x;
      assert a == [a[0]] + a[1..];
    }
  }

  // Splitting and joining undo each other.
  lemma {:induction false} JoinOfSplit(s: string)
    ensures Join(Split(s)) == s
  {
    if s != [] {
      JoinOfSplit(s[1..]);
      var rest := Split(s[1..]);
      if s[0] == '/' {
        assert ([""] + rest)[1..] == rest;
      } else {
        assert ([[s[0]] + rest[0]] + rest[1..])[1..] == rest[1..];
      }
      assert s == [s[0]] + s[1..];
    }
  }

  // -- Shard file names ------------------------------------------------------------

  // /^(\d{4})-(\d{2})-(\d{2})T(\d{2})\.ndjson\.(gz|br)$/
  predicate IsShardName(name: string) {
    && |name| == 23
    && AllDigits(name[..4]) && name[4] == '-' && AllDigits(name[5..7]) && name[7] == '-' && AllDigits(name[8..10])
    && name[10] == 'T' && AllDigits(name[11..13])
    && name[13..21] == ".ndjson." && name[21..] in {"gz", "br"}
  }

  function ToDriveKey(path: string): Option<string> {
    var parts := Split(path);
    if |parts| != 3 then None
    else
      var feed, name := parts[0], parts[2];
      if !IsShardName(name) then None
      else Some(feed + "/" + name[..4] + "/" + name[5..7] + "/" + name[8..10] + "/" + name[11..13] + name[13..])
  }

  // The inverse: a remote key back to the path of the shard it backs up.
  function FromDriveKey(key: string): Option<string> {
    var parts := Split(key);
    if |parts| != 5 then None
    else
      var date := parts[1] + "-" + parts[2] + "-" + parts[3];
      Some(parts[0] + "/" + date + "/" + date + "T" + parts[4])
  }

  lemma NameParts(name: string)
    requires IsShardName(name)
    ensures name == name[..4] + "-" + name[5..7] + "-" + name[8..10] + "T" + (name[11..13] + name[13..])
    ensures name[..10] == name[..4] + "-" + name[5..7] + "-" + name[8..10]
    ensures '/' !in name && 'p' !in name
  {
    var ext := name[21..];
    assert name ==
      name[..4] + [name[4]] + name[5..7] + [name[7]] + name[8..10] + [name[10]] + name[11..13] + name[13..21] + ext;
    forall i | 0 <= i < |name|
      ensures name[i] != '/' && name[i] != 'p'
    {
      if i < 4 {
        assert name[i] == name[..4][i];
      } else if 5 <= i < 7 {
        assert name[i] == name[5..7][i - 5];
      } else if 8 <= i < 10 {
        assert name[i] == name[8..10][i - 8];
      } else if 11 <= i < 13 {
        assert name[i] == name[11..13][i - 11];
      } else if 13 <= i < 21 {
        assert name[i] == name[13..21][i - 13];
      } else if i >= 21 {
        assert name[i] == ext[i - 21];
      }
    }
  }

  lemma KeyParts(path: string)
    requires ToDriveKey(path).Some?
    ensures var name := Split(path)[2];
            Split(ToDriveKey(path).value) ==
            [Split(path)[0], name[..4], name[5..7], name[8..10], name[11..13] + name[13..]]
  {
    var parts := Split(path);
    var feed, name := parts[0], parts[2];
    NameParts(name);
    hide IsShardName, Split;
    var hour := name[11..13] + name[13..];
    var key := ToDriveKey(path).value;
    assert key == feed + "/" + (name[..4] + "/" + (name[5..7] + "/" + (name[8..10] + "/" + hour)));
    SplitAfterPart(feed, name[..4] + "/" + (name[5..7] + "/" + (name[8..10] + "/" + hour)));
    SplitAfterPart(name[..4], name[5..7] + "/" + (name[8..10] + "/" + hour));
    SplitAfterPart(name[5..7], name[8..10] + "/" + hour);
    SplitAfterPart(name[8..10], hour);
    SplitOfPart(hour);
  }

  // The key forgets the middle directory and nothing else.
  lemma SameKeyExactlyWhen(p: string, q: string)
    requires ToDriveKey(p).Some? && ToDriveKey(q).Some?
    ensures ToDriveKey(p) == ToDriveKey(q) <==> Split(p)[0] == Split(q)[0] && Split(p)[2] == Split(q)[2]
  {
    KeyParts(p);
    KeyParts(q);
    NameParts(Split(p)[2]);
    NameParts(Split(q)[2]);
    hide Split, IsShardName;
    if ToDriveKey(p) == ToDriveKey(q) {
      var a, b := Split(ToDriveKey(p).value), Split(ToDriveKey(q).value);
      assert a[0] == b[0] && a[1] == b[1] && a[2] == b[2] && a[3] == b[3] && a[4] == b[4];
    }
  }

  // A path can be read back from its key exactly when its directory is the date
  // in its file name.
  lemma InvertibleExactlyWhen(path: string)
    requires ToDriveKey(path).Some?
    ensures FromDriveKey(ToDriveKey(path).value) == Some(path) <==> Split(path)[1] == Split(path)[2][..10]
  {
    var parts := Split(path);
    var name := parts[2];
    KeyParts(path);
    NameParts(name);
    JoinOfSplit(path);
    assert Join(parts[1..]) == parts[1] + "/" + Join(parts[1..][1..]) && parts[1..][1..] == [name];
    assert path == parts[0] + "/" + (parts[1] + "/" + name);
    hide Split, IsShardName;
    var back := FromDriveKey(ToDriveKey(path).value).value;
    assert back == parts[0] + "/" + (name[..10] + "/" + name);
    if back == path {
      CutAtFirst(parts[0], parts[0], name[..10] + "/" + name, parts[1] + "/" + name, '/');
      CutAtLast(name[..10], parts[1], name, name, '/');
    }
  }

  // -- The paths the archive writes --------------------------------------------------

  // hourKeyOf, of an hour number.
  function HourText(hour: int): string {
    Calendar.DateText(hour / 24) + "T" + Pad2(hour % 24)
  }

  function Extension(brotli: bool): string {
    if brotli then "br" else "gz"
  }

  function ShardName(hour: int, brotli: bool): string {
    HourText(hour) + ".ndjson." + Extension(brotli)
  }

  // finalPath, relative to the archive directory.
  function LocalPath(feed: string, hour: int, brotli: bool): string {
    feed + "/" + Calendar.DateText(hour / 24) + "/" + ShardName(hour, brotli)
  }

  // Hours of the years 0 to 9999, which have a four-digit date.
  predicate InRange(hour: int) {
    0 <= Calendar.CivilOf(hour / 24).year <= 9999
  }

  function KeyTail(hour: int, brotli: bool): string
    requires InRange(hour)
  {
    var c := Calendar.CivilOf(hour / 24);
    Pad4(c.year)
      + ("/" + (Pad2(c.month) + ("/" + (Pad2(c.day) + ("/" + (Pad2(hour % 24) + (".ndjson." + Extension(brotli))))))))
  }

  // The layout the remote folder is meant to have: feed/YYYY/MM/DD/HH.ndjson.ext.
  function DriveLayout(feed: string, hour: int, brotli: bool): string
    requires InRange(hour)
  {
    feed + "/" + KeyTail(hour, brotli)
  }

  function PathTail(hour: int, brotli: bool): string {
    Calendar.DateText(hour / 24) + ("/" + ShardName(hour, brotli))
  }

  lemma DateFields(year: string, month: string, day: string)
    requires |year| == 4 && |month| == 2 && |day| == 2
    ensures var date := year + "-" + month + "-" + day;
            && |date| == 10 && date[..4] == year && date[5..7] == month && date[8..] == day
            && date[4] == '-' && date[7] == '-'
  {
  }

  lemma NamePieces(date: string, stamp: string, ext: string)
    requires |date| == 10 && |stamp| == 2 && |ext| == 10
    ensures var name := date + "T" + stamp + ext;
            && |name| == 23 && name[..10] == date && name[10] == 'T' && name[11..13] == stamp
            && name[13..] == ext && name[13..21] == ext[..8] && name[21..] == ext[8..]
            && name[..4] == date[..4] && name[5..7] == date[5..7] && name[8..10] == date[8..]
            && name[4] == date[4] && name[7] == date[7]
  {
  }

  lemma EmittedName(hour: int, brotli: bool)
    requires InRange(hour)
    ensures var name, c := ShardName(hour, brotli), Calendar.CivilOf(hour / 24);
            && IsShardName(name)
            && name[..4] == Pad4(c.year) && name[5..7] == Pad2(c.month) && name[8..10] == Pad2(c.day)
            && name[..10] == Calendar.DateText(hour / 24)
            && name[11..13] == Pad2(hour % 24) && name[13..] == ".ndjson." + Extension(brotli)
  {
    hide Calendar.CivilOf, Pad2, Pad4;
    var name, c := ShardName(hour, brotli), Calendar.CivilOf(hour / 24);
    var date, stamp, ext := Calendar.DateText(hour / 24), Pad2(hour % 24), ".ndjson." + Extension(brotli);
    DateFields(Pad4(c.year), Pad2(c.month), Pad2(c.day));
    assert date == Pad4(c.year) + "-" + Pad2(c.month) + "-" + Pad2(c.day);
    hide Calendar.DateText;
    assert |ext| == 10 && ext[..8] == ".ndjson." && ext[8..] == Extension(brotli);
    assert name == date + "T" + stamp + ext;
    NamePieces(date, stamp, ext);
  }

  lemma LongNameIsNot(name: string)
    requires |name| != 23
    ensures !IsShardName(name)
  {
  }

  lemma NoSlash(hour: int, brotli: bool)
    requires InRange(hour)
    ensures '/' !in Calendar.DateText(hour / 24) && '/' !in ShardName(hour, brotli)
  {
    EmittedName(hour, brotli);
    NameParts(ShardName(hour, brotli));
    hide *;
    assert forall c | c in ShardName(hour, brotli)[..10] :: c in ShardName(hour, brotli);
  }

  // A shard still being written, or one that was abandoned and moved aside, is not
  // recognised: nothing after the final name leaves it a shard's name.
  lemma UnfinishedIsNotRecognised(feed: string, hour: int, brotli: bool, suffix: string)
    requires '/' !in feed && '/' !in suffix && suffix != "" && InRange(hour)
    ensures ToDriveKey(LocalPath(feed, hour, brotli) + suffix).None?
  {
    NoSlash(hour, brotli);
    EmittedName(hour, brotli);
    var (date, name) := (Calendar.DateText(hour / 24), ShardName(hour, brotli));
    assert |name| == 23;
    hide Calendar.DateText, ShardName, Split, InRange, IsShardName;
    var path := LocalPath(feed, hour, brotli) + suffix;
    assert path == feed + "/" + (date + "/" + (name + suffix));
    SplitAfterPart(feed, date + "/" + (name + suffix));
    SplitAfterPart(date, name + suffix);
    SplitOfPart(name + suffix);
    assert !IsShardName(name + suffix) by { LongNameIsNot(name + suffix); }
  }

  lemma SplitLocalPath(feed: string, hour: int, brotli: bool)
    requires '/' !in feed && InRange(hour)
    ensures Split(LocalPath(feed, hour, brotli)) == [feed, Calendar.DateText(hour / 24), ShardName(hour, brotli)]
  {
    NoSlash(hour, brotli);
    hide Calendar.DateText, ShardName, Split, InRange;
    var date, name := Calendar.DateText(hour / 24), ShardName(hour, brotli);
    assert LocalPath(feed, hour, brotli) == feed + "/" + (date + "/" + name);
    SplitAfterPart(feed, date + "/" + name);
    SplitAfterPart(date, name);
    SplitOfPart(name);
  }

  lemma Reassociate(feed: string, a: string, b: string, c: string, d: string, e: string)
    ensures feed + "/" + a + "/" + b + "/" + c + "/" + d + e
            == feed + "/" + (a + ("/" + (b + ("/" + (c + ("/" + (d + e)))))))
  {
  }

  // Every shard the archive finalises is recognised, lands in the layout, and
  // can be found again from its key.
  lemma EmittedIsRecognised(feed: string, hour: int, brotli: bool)
    requires '/' !in feed && InRange(hour)
    ensures ToDriveKey(LocalPath(feed, hour, brotli)) == Some(DriveLayout(feed, hour, brotli))
    ensures FromDriveKey(DriveLayout(feed, hour, brotli)) == Some(LocalPath(feed, hour, brotli))
  {
    var path, c := LocalPath(feed, hour, brotli), Calendar.CivilOf(hour / 24);
    EmittedName(hour, brotli);
    SplitLocalPath(feed, hour, brotli);
    Reassociate(feed, Pad4(c.year), Pad2(c.month), Pad2(c.day), Pad2(hour % 24), ".ndjson." + Extension(brotli));
    hide Calendar.CivilOf, Calendar.DateText, ShardName, IsShardName, Split, Pad2, Pad4, LocalPath, Extension;
    assert ToDriveKey(path).value == DriveLayout(feed, hour, brotli);
    InvertibleExactlyWhen(path);
  }

  // No two of them share a remote key.
  lemma EmittedKeysInjective(feed: string, hour: int, brotli: bool, feed': string, hour': int, brotli': bool)
    requires '/' !in feed && '/' !in feed' && InRange(hour) && InRange(hour')
    requires ToDriveKey(LocalPath(feed, hour, brotli)) == ToDriveKey(LocalPath(feed', hour', brotli'))
    ensures feed == feed' && hour == hour' && brotli == brotli'
  {
    EmittedIsRecognised(feed, hour, brotli);
    EmittedIsRecognised(feed', hour', brotli');
    SplitLocalPath(feed, hour, brotli);
    SplitLocalPath(feed', hour', brotli');
    EmittedName(hour, brotli);
    EmittedName(hour', brotli');
    hide Calendar.CivilOf, Calendar.DateText, ShardName, IsShardName, Split, Pad2, Pad4, LocalPath, DriveLayout;
    var p, q := LocalPath(feed, hour, brotli), LocalPath(feed', hour', brotli');
    assert p == q;
    assert Split(p)[0] == feed && Split(q)[0] == feed';
    var name, name' := ShardName(hour, brotli), ShardName(hour', brotli');
    assert name == Split(p)[2] && name' == Split(q)[2];
    Calendar.DateTextInjective(hour / 24, hour' / 24);
    Pad2Injective(hour % 24, hour' % 24);
    assert name[13..][8..] == Extension(brotli) && name'[13..][8..] == Extension(brotli');
    assert Extension(true)[0] != Extension(false)[0];
  }

  lemma {:induction false} LessIrreflexive(a: string)
    ensures !Less(a, a)
  {
    if a != [] {
      LessIrreflexive(a[1..]);
    }
  }

  lemma CommonPrefix(a: string, x: string, y: string)
    ensures Less(a + x, a + y) <==> Less(x, y)
  {
    LessIrreflexive(a);
    LessOnFields(a, a, x, y);
  }

  // What follows the feed in a local path and in a remote key, ordered.
  lemma KeyOrder(h: int, h': int, brotli: bool)
    requires InRange(h) && InRange(h')
    ensures Less(KeyTail(h, brotli), KeyTail(h', brotli)) <==> h < h'
  {
    var c, c' := Calendar.CivilOf(h / 24), Calendar.CivilOf(h' / 24);
    var ext := ".ndjson." + Extension(brotli);
    Calendar.BeforeIsDayOrder(c, c');
    Calendar.BeforeIsDayOrder(c', c);
    hide Calendar.CivilOf, Calendar.DayOf, Pad4, Pad2, Less, Extension;
    var x, x' := Pad2(h % 24) + ext, Pad2(h' % 24) + ext;
    LessOnFields(Pad2(h % 24), Pad2(h' % 24), ext, ext);
    LessIrreflexive(ext);
    LessOnPad2(h % 24, h' % 24);
    CommonPrefix("/", x, x');
    var y, y' := Pad2(c.day) + ("/" + x), Pad2(c'.day) + ("/" + x');
    LessOnFields(Pad2(c.day), Pad2(c'.day), "/" + x, "/" + x');
    LessOnPad2(c.day, c'.day);
    CommonPrefix("/", y, y');
    var z, z' := Pad2(c.month) + ("/" + y), Pad2(c'.month) + ("/" + y');
    LessOnFields(Pad2(c.month), Pad2(c'.month), "/" + y, "/" + y');
    LessOnPad2(c.month, c'.month);
    CommonPrefix("/", z, z');
    LessOnFields(Pad4(c.year), Pad4(c'.year), "/" + z, "/" + z');
    LessOnPad4(c.year, c'.year);
    if Pad4(c.year) == Pad4(c'.year) { Pad4Injective(c.year, c'.year); }
    if Pad2(c.month) == Pad2(c'.month) { Pad2Injective(c.month, c'.month); }
    if Pad2(c.day) == Pad2(c'.day) { Pad2Injective(c.day, c'.day); }
  }

  lemma HourAfterDate(h: int, brotli: bool)
    ensures ShardName(h, brotli) ==
            Calendar.DateText(h / 24) + ("T" + (Pad2(h % 24) + (".ndjson." + Extension(brotli))))
  {
    hide Calendar.DateText, Pad2, Extension;
  }

  lemma PathOrder(h: int, h': int, brotli: bool)
    requires InRange(h) && InRange(h')
    ensures Less(PathTail(h, brotli), PathTail(h', brotli)) <==> h < h'
  {
    var d, d' := Calendar.DateText(h / 24), Calendar.DateText(h' / 24);
    Calendar.DateTextOrder(h / 24, h' / 24);
    if d == d' { Calendar.DateTextInjective(h / 24, h' / 24); }
    var ext := ".ndjson." + Extension(brotli);
    assert |d| == 10 && |d'| == 10;
    hide Calendar.CivilOf, Calendar.DateText, Pad2, Less, Extension, HourText;
    var u, u' := Pad2(h % 24) + ext, Pad2(h' % 24) + ext;
    HourAfterDate(h, brotli);
    HourAfterDate(h', brotli);
    hide ShardName;
    LessOnFields(d, d', "/" + ShardName(h, brotli), "/" + ShardName(h', brotli));
    CommonPrefix("/", ShardName(h, brotli), ShardName(h', brotli));
    LessOnFields(d, d', "T" + u, "T" + u');
    CommonPrefix("T", u, u');
    LessOnFields(Pad2(h % 24), Pad2(h' % 24), ext, ext);
    LessIrreflexive(ext);
    LessOnPad2(h % 24, h' % 24);
  }

  lemma PathHasTail(feed: string, h: int, brotli: bool)
    ensures LocalPath(feed, h, brotli) == feed + "/" + PathTail(h, brotli)
  {
    hide Calendar.DateText, ShardName;
  }

  // Listing a feed's shards by path or by remote key lists them by hour.
  lemma KeysInHourOrder(feed: string, h: int, h': int, brotli: bool)
    requires '/' !in feed && InRange(h) && InRange(h')
    ensures Less(DriveLayout(feed, h, brotli), DriveLayout(feed, h', brotli)) <==> h < h'
    ensures Less(LocalPath(feed, h, brotli), LocalPath(feed, h', brotli)) <==> h < h'
  {
    KeyOrder(h, h', brotli);
    PathOrder(h, h', brotli);
    CommonPrefix(feed + "/", KeyTail(h, brotli), KeyTail(h', brotli));
    CommonPrefix(feed + "/", PathTail(h, brotli), PathTail(h', brotli));
    PathHasTail(feed, h, brotli);
    PathHasTail(feed, h', brotli);
    hide LocalPath, KeyTail, PathTail, InRange, Less;
  }
}
