// Generational retention of database dumps: scripts/backup-database.ts.
module Retention {
  import opened Wrappers
  import opened Text
  import Calendar

  // -- Dump names -------------------------------------------------------------

  const MINUTES_PER_DAY: int := 1440

  // A parsed dump; `at` is in minutes since the epoch.
  datatype Dump = Dump(name: string, at: int)

  // busproject-YYYY-MM-DDTHHMMZ.dump
  function DumpName(at: int): string
    requires 0 <= Calendar.CivilOf(at / MINUTES_PER_DAY).year <= 9999
  {
    var c := Calendar.CivilOf(at / MINUTES_PER_DAY);
    var minute := at % MINUTES_PER_DAY;
    "busproject-" + Pad4(c.year) + "-" + Pad2(c.month) + "-" + Pad2(c.day)
    + "T" + Pad2(minute / 60) + Pad2(minute % 60) + "Z.dump"
  }

  // The regular expression of selectForRetention.
  predicate HasDumpShape(name: string) {
    && |name| == 32
    && name[..11] == "busproject-" && AllDigits(name[11..15])
    && name[15] == '-' && AllDigits(name[16..18]) && name[18] == '-' && AllDigits(name[19..21])
    && name[21] == 'T' && AllDigits(name[22..24]) && AllDigits(name[24..26])
    && name[26..] == "Z.dump"
  }

  datatype Parsed = NotADump | InvalidDate | Parsed(dump: Dump)

  // A name of the right shape whose fields are no date gives an invalid Date,
  // and its toISOString() throws.
  function Parse(name: string): Parsed {
    if !HasDumpShape(name) then NotADump
    else
      var year, month, day := Value(name[11..15]), Value(name[16..18]), Value(name[19..21]);
      var hour, minute := Value(name[22..24]), Value(name[24..26]);
      if 1 <= month <= 12 && 1 <= day <= 31 && minute < 60 && (hour < 24 || (hour == 24 && minute == 0))
      then Parsed.Parsed(
        Dump(name, Calendar.DayOf(Calendar.Civil(year, month, day)) * MINUTES_PER_DAY + hour * 60 + minute))
      else InvalidDate
  }

  lemma MonthsAreShort(c: Calendar.Civil)
    requires Calendar.Valid(c)
    ensures c.day <= 31
  {
  }

  // Which names of a dump's shape are dates: the month and the day of the month are
  // in range, the minutes are below sixty, and the time is not past midnight.
  lemma ParsedExactlyWhen(name: string)
    requires HasDumpShape(name)
    ensures var (month, day) := (Value(name[16..18]), Value(name[19..21]));
            var (hour, minute) := (Value(name[22..24]), Value(name[24..26]));
            && (Parse(name).Parsed? <==>
                  1 <= month <= 12 && 1 <= day <= 31 && minute < 60 && hour * 60 + minute <= 1440)
            && (Parse(name).Parsed? ==> (Parse(name).dump.at - (hour * 60 + minute)) % 1440 == 0)
  {
    hide Calendar.DayOf, Value, HasDumpShape;
  }

  // The name a nightly run gives its dump reads back as the minute it was made.
  lemma ParseDumpName(at: int)
    requires 0 <= Calendar.CivilOf(at / MINUTES_PER_DAY).year <= 9999
    ensures Parse(DumpName(at)) == Parsed.Parsed(Dump(DumpName(at), at))
  {
    hide Calendar.CivilOf, Calendar.DayOf, Pad2, Pad4, Value, Calendar.DaysInMonth;
    var c := Calendar.CivilOf(at / MINUTES_PER_DAY);
    var minute := at % MINUTES_PER_DAY;
    var name := DumpName(at);
    assert c.day <= 31 by { MonthsAreShort(c); }
    assert name[11..15] == Pad4(c.year) && name[16..18] == Pad2(c.month) && name[19..21] == Pad2(c.day);
    assert name[22..24] == Pad2(minute / 60) && name[24..26] == Pad2(minute % 60);
    assert name[..11] == "busproject-" && name[26..] == "Z.dump";
    ValueOfPad4(c.year);
    ValueOfPad2(c.month);
    ValueOfPad2(c.day);
    ValueOfPad2(minute / 60);
    ValueOfPad2(minute % 60);
  }

  lemma ShapeInPieces(name: string)
    requires HasDumpShape(name)
    ensures name == "busproject-" + name[11..15] + "-" + name[16..18] + "-" + name[19..21]
                    + "T" + name[22..24] + name[24..26] + "Z.dump"
  {
    hide AllDigits;
    assert name == name[..11] + name[11..15] + [name[15]] + name[16..18] + [name[18]] + name[19..21]
                   + [name[21]] + name[22..24] + name[24..26] + name[26..];
  }

  lemma MinuteOfDay(day: int, hour: nat, minute: nat)
    requires hour < 24 && minute < 60
    ensures var at := day * MINUTES_PER_DAY + hour * 60 + minute;
            at / MINUTES_PER_DAY == day && at % MINUTES_PER_DAY == hour * 60 + minute
            && at % MINUTES_PER_DAY / 60 == hour && at % MINUTES_PER_DAY % 60 == minute
  {
  }

  // And a name whose fields are a date and a time of day is the name of the minute
  // it reads as, and of no other.
  lemma ParsedIsItsName(name: string)
    requires Parse(name).Parsed?
    requires Calendar.Valid(Calendar.Civil(Value(name[11..15]), Value(name[16..18]), Value(name[19..21])))
    requires Value(name[22..24]) < 24
    ensures var at := Parse(name).dump.at;
            0 <= Calendar.CivilOf(at / MINUTES_PER_DAY).year <= 9999 && DumpName(at) == name
  {
    hide Calendar.CivilOf, Calendar.DayOf, Pad2, Pad4, Value, AllDigits, Calendar.Valid;
    var c := Calendar.Civil(Value(name[11..15]), Value(name[16..18]), Value(name[19..21]));
    Calendar.CivilRoundTrip(c);
    MinuteOfDay(Calendar.DayOf(c), Value(name[22..24]), Value(name[24..26]));
    Pad4OfValue(name[11..15]);
    Pad2OfValue(name[16..18]);
    Pad2OfValue(name[19..21]);
    Pad2OfValue(name[22..24]);
    Pad2OfValue(name[24..26]);
    ShapeInPieces(name);
  }

  // -- Newest first --------------------------------------------------------------

  ghost predicate NewestFirst(dumps: seq<Dump>) {
    forall i, j | 0 <= i < j < |dumps| :: dumps[i].at >= dumps[j].at
  }

  ghost predicate StrictlyNewestFirst(dumps: seq<Dump>) {
    forall i, j | 0 <= i < j < |dumps| :: dumps[i].at > dumps[j].at
  }

  // A stable sort on descending time.
  function Insert(d: Dump, sorted: seq<Dump>): seq<Dump> {
    if sorted == [] || sorted[0].at < d.at then [d] + sorted
    else [sorted[0]] + Insert(d, sorted[1..])
  }

  function SortNewestFirst(dumps: seq<Dump>): seq<Dump> {
    if dumps == [] then [] else Insert(dumps[|dumps| - 1], SortNewestFirst(dumps[..|dumps| - 1]))
  }

  lemma {:induction false} InsertKeepsAll(d: Dump, sorted: seq<Dump>)
    ensures multiset(Insert(d, sorted)) == multiset(sorted) + multiset{d}
    ensures forall e :: e in Insert(d, sorted) <==> e == d || e in sorted
  {
    if sorted != [] {
      InsertKeepsAll(d, sorted[1..]);
      assert sorted == [sorted[0]] + sorted[1..];
    }
  }

  lemma {:induction false} InsertSorted(d: Dump, sorted: seq<Dump>)
    requires NewestFirst(sorted)
    ensures NewestFirst(Insert(d, sorted))
  {
    if sorted != [] && sorted[0].at >= d.at {
      InsertSorted(d, sorted[1..]);
      InsertKeepsAll(d, sorted[1..]);
      var rest := Insert(d, sorted[1..]);
      assert forall j | 0 <= j < |sorted| - 1 :: sorted[1..][j] == sorted[j + 1] && sorted[j + 1].at <= sorted[0].at;
      assert forall e | e in sorted[1..] :: e.at <= sorted[0].at;
      assert forall i | 0 <= i < |rest| :: rest[i] in rest;
    }
  }

  lemma {:induction false} SortSorted(dumps: seq<Dump>)
    ensures NewestFirst(SortNewestFirst(dumps)) && multiset(SortNewestFirst(dumps)) == multiset(dumps)
  {
    if dumps != [] {
      var before := SortNewestFirst(dumps[..|dumps| - 1]);
      SortSorted(dumps[..|dumps| - 1]);
      InsertSorted(dumps[|dumps| - 1], before);
      InsertKeepsAll(dumps[|dumps| - 1], before);
      assert dumps == dumps[..|dumps| - 1] + [dumps[|dumps| - 1]];
    }
  }

  lemma HeadAndTail(a: seq<Dump>)
    requires a != []
    ensures a == [a[0]] + a[1..] && multiset(a[1..]) == multiset(a) - multiset{a[0]}
  {
    assert a == [a[0]] + a[1..];
  }

  lemma SameHead(a: seq<Dump>, b: seq<Dump>)
    requires a != [] && NewestFirst(a) && StrictlyNewestFirst(b) && multiset(a) == multiset(b)
    ensures b != [] && a[0] == b[0]
  {
    assert a[0] in multiset(a);
    assert a[0] in b;
    assert b[0] in multiset(b);
    assert b[0] in a;
    assert a[0].at >= b[0].at;
  }

  // Whatever order the remote lists its files in, dumps of distinct times come
  // out in one order.
  lemma {:induction false} SortIsCanonical(a: seq<Dump>, b: seq<Dump>)
    requires NewestFirst(a) && StrictlyNewestFirst(b) && multiset(a) == multiset(b)
    ensures a == b
  {
    if a == [] {
      assert |multiset(b)| == 0;
    } else {
      SameHead(a, b);
      assert NewestFirst(a[1..]) && StrictlyNewestFirst(b[1..]);
      hide NewestFirst, StrictlyNewestFirst;
      HeadAndTail(a);
      HeadAndTail(b);
      SortIsCanonical(a[1..], b[1..]);
    }
  }

  // -- One generation ---------------------------------------------------------------

  // Walk newest-first, keeping the first dump of each bucket until the
  // allowance is used up. `seen` holds the buckets already represented.
  ghost function Walk(bucket: Dump -> string, allowance: nat, dumps: seq<Dump>, seen: set<string>): set<string> {
    if dumps == [] then {}
    else
      var key := bucket(dumps[0]);
      if |seen| < allowance && key !in seen
      then {dumps[0].name} + Walk(bucket, allowance, dumps[1..], seen + {key})
      else Walk(bucket, allowance, dumps[1..], seen)
  }

  ghost function SeenAfter(bucket: Dump -> string, allowance: nat, d: Dump, seen: set<string>): set<string> {
    if |seen| < allowance && bucket(d) !in seen then seen + {bucket(d)} else seen
  }

  ghost predicate NamesDistinct(dumps: seq<Dump>) {
    forall i, j | 0 <= i < j < |dumps| :: dumps[i].name != dumps[j].name
  }

  ghost function BucketsBefore<K(!new)>(bucket: Dump -> K, dumps: seq<Dump>, i: nat): set<K>
    requires i <= |dumps|
  {
    set j | 0 <= j < i :: bucket(dumps[j])
  }

  lemma {:induction false} WalkNames(bucket: Dump -> string, allowance: nat, dumps: seq<Dump>, seen: set<string>)
    ensures forall name | name in Walk(bucket, allowance, dumps, seen) ::
              exists i | 0 <= i < |dumps| :: dumps[i].name == name
    ensures |Walk(bucket, allowance, dumps, seen)| <= if |seen| < allowance then allowance - |seen| else 0
  {
    if dumps != [] {
      var key := bucket(dumps[0]);
      var keep := |seen| < allowance && key !in seen;
      WalkNames(bucket, allowance, dumps[1..], if keep then seen + {key} else seen);
      assert forall i | 0 <= i < |dumps| - 1 :: dumps[1..][i] == dumps[i + 1];
    }
  }

  lemma BucketsBeforeStep(bucket: Dump -> string, dumps: seq<Dump>, i: nat)
    requires 0 < i <= |dumps|
    ensures BucketsBefore(bucket, dumps, i) == {bucket(dumps[0])} + BucketsBefore(bucket, dumps[1..], i - 1)
  {
    var rest := dumps[1..];
    forall k | k in BucketsBefore(bucket, dumps, i)
      ensures k in {bucket(dumps[0])} + BucketsBefore(bucket, rest, i - 1)
    {
      var j :| 0 <= j < i && bucket(dumps[j]) == k;
      if j > 0 {
        assert rest[j - 1] == dumps[j];
      }
    }
    forall k | k in BucketsBefore(bucket, rest, i - 1)
      ensures k in BucketsBefore(bucket, dumps, i)
    {
      var j :| 0 <= j < i - 1 && bucket(rest[j]) == k;
      assert rest[j] == dumps[j + 1];
    }
  }

  lemma WalkTail(bucket: Dump -> string, allowance: nat, dumps: seq<Dump>, seen: set<string>, name: string)
    requires dumps != [] && name != dumps[0].name
    ensures name in Walk(bucket, allowance, dumps, seen) <==>
            name in Walk(bucket, allowance, dumps[1..], SeenAfter(bucket, allowance, dumps[0], seen))
  {
  }

  // The buckets taken before dump i is reached.
  ghost function Prior(bucket: Dump -> string, dumps: seq<Dump>, seen: set<string>, i: nat): set<string>
    requires i <= |dumps|
  {
    seen + BucketsBefore(bucket, dumps, i)
  }

  lemma WalkHead(bucket: Dump -> string, allowance: nat, dumps: seq<Dump>, seen: set<string>)
    requires dumps != [] && NamesDistinct(dumps)
    ensures dumps[0].name in Walk(bucket, allowance, dumps, seen) <==>
            bucket(dumps[0]) !in Prior(bucket, dumps, seen, 0) && |Prior(bucket, dumps, seen, 0)| < allowance
  {
    assert Prior(bucket, dumps, seen, 0) == seen;
    var rest := dumps[1..];
    assert forall j | 0 <= j < |rest| :: rest[j] == dumps[j + 1];
    WalkNames(bucket, allowance, rest, seen);
  }

  lemma SubsetSize<T>(a: set<T>, b: set<T>)
    requires a <= b
    ensures |a| <= |b|
  {
    assert b == a + (b - a);
  }

  lemma PriorStep(bucket: Dump -> string, allowance: nat, dumps: seq<Dump>, seen: set<string>, i: nat)
    requires 0 < i <= |dumps|
    ensures var (now, later) := (Prior(bucket, dumps, seen, i),
                                 Prior(bucket, dumps[1..], SeenAfter(bucket, allowance, dumps[0], seen), i - 1));
            now == later || (|now| >= allowance && |later| >= allowance)
  {
    BucketsBeforeStep(bucket, dumps, i);
    hide BucketsBefore;
    var others := BucketsBefore(bucket, dumps[1..], i - 1);
    if |seen| >= allowance {
      SubsetSize(seen, seen + others);
      SubsetSize(seen, seen + ({bucket(dumps[0])} + others));
    }
  }

  // A dump is kept by a generation exactly when no newer dump shares its bucket
  // and fewer than the allowance of distinct buckets are newer.
  lemma {:induction false} WalkMeaning(bucket: Dump -> string, allowance: nat, dumps: seq<Dump>, seen: set<string>,
                                       i: nat)
    requires i < |dumps| && NamesDistinct(dumps)
    ensures dumps[i].name in Walk(bucket, allowance, dumps, seen) <==>
            bucket(dumps[i]) !in Prior(bucket, dumps, seen, i) && |Prior(bucket, dumps, seen, i)| < allowance
  {
    hide Walk, Prior, SeenAfter;
    if i == 0 {
      WalkHead(bucket, allowance, dumps, seen);
    } else {
      var rest := dumps[1..];
      assert NamesDistinct(rest) && rest[i - 1] == dumps[i] && dumps[0].name != dumps[i].name;
      WalkTail(bucket, allowance, dumps, seen, dumps[i].name);
      WalkMeaning(bucket, allowance, rest, SeenAfter(bucket, allowance, dumps[0], seen), i - 1);
      PriorStep(bucket, allowance, dumps, seen, i);
    }
  }

  // -- The three generations ------------------------------------------------------------

  datatype Keep = Keep(daily: nat, weekly: nat, monthly: nat)

  function Day(d: Dump): int { d.at / MINUTES_PER_DAY }

  function DayKey(d: Dump): string { Calendar.DateText(Day(d)) }

  function WeekKey(d: Dump): string { Calendar.WeekKeyText(Day(d)) }

  // toISOString().slice(0, 7)
  function MonthKey(d: Dump): string {
    var c := Calendar.CivilOf(Day(d));
    Calendar.YearText(c.year) + "-" + Pad2(c.month)
  }

  ghost function Retained(keep: Keep, dumps: seq<Dump>): set<string> {
    Walk(DayKey, keep.daily, dumps, {}) + Walk(WeekKey, keep.weekly, dumps, {})
      + Walk(MonthKey, keep.monthly, dumps, {})
  }

  function NamesIn(dumps: seq<Dump>, names: set<string>): seq<string> {
    if dumps == [] then []
    else (if dumps[0].name in names then [dumps[0].name] else []) + NamesIn(dumps[1..], names)
  }

  function NamesOutside(dumps: seq<Dump>, names: set<string>): seq<string> {
    if dumps == [] then []
    else (if dumps[0].name in names then [] else [dumps[0].name]) + NamesOutside(dumps[1..], names)
  }

  datatype Selection = Selection(retain: seq<string>, remove: seq<string>)

  datatype RangeError = InvalidTimeValue

  function ParseAll(filenames: seq<string>): Result<seq<Dump>, RangeError> {
    if filenames == [] then Success([])
    else
      var before := ParseAll(filenames[..|filenames| - 1]);
      match Parse(filenames[|filenames| - 1])
      case NotADump => before
      case InvalidDate => Failure(InvalidTimeValue)
      case Parsed(d) => if before.Failure? then before else Success(before.value + [d])
  }

  ghost function Taken(bucket: Dump -> string, allowance: nat, d: Dump, seen: set<string>): set<string> {
    if |seen| < allowance && bucket(d) !in seen then {d.name} else {}
  }

  // One entry offered to one generation.
  method Visit(bucket: Dump -> string, allowance: nat, entry: Dump, seen0: set<string>, retain0: set<string>)
    returns (seen: set<string>, retain: set<string>)
    ensures seen == SeenAfter(bucket, allowance, entry, seen0)
    ensures retain == retain0 + Taken(bucket, allowance, entry, seen0)
  {
    seen, retain := seen0, retain0;
    var key := bucket(entry);
    if |seen| < allowance && key !in seen {
      seen := seen + {key};
      retain := retain + {entry.name};
    }
  }

  // Where one generation stands after i dumps: what it has kept, and the
  // buckets it has seen.
  ghost predicate Generation(bucket: Dump -> string, allowance: nat, dumps: seq<Dump>, i: nat, seen: set<string>,
                             kept: set<string>) {
    i <= |dumps| && Walk(bucket, allowance, dumps, {}) == kept + Walk(bucket, allowance, dumps[i..], seen)
  }

  // Where the loop stands after i dumps.
  ghost predicate AfterDumps(dumps: seq<Dump>, keep: Keep, i: nat,
                             daily: set<string>, weekly: set<string>, monthly: set<string>, retain: set<string>)
  {
    exists a, b, c :: retain == a + b + c
      && Generation(DayKey, keep.daily, dumps, i, daily, a)
      && Generation(WeekKey, keep.weekly, dumps, i, weekly, b)
      && Generation(MonthKey, keep.monthly, dumps, i, monthly, c)
  }

  lemma GenerationStep(bucket: Dump -> string, allowance: nat, dumps: seq<Dump>, i: nat, seen: set<string>,
                       kept: set<string>)
    requires i < |dumps| && Generation(bucket, allowance, dumps, i, seen, kept)
    ensures Generation(bucket, allowance, dumps, i + 1,
              SeenAfter(bucket, allowance, dumps[i], seen), kept + Taken(bucket, allowance, dumps[i], seen))
  {
    assert dumps[i..][1..] == dumps[i + 1..];
  }

  lemma Gather(dumps: seq<Dump>, keep: Keep, i: nat, daily: set<string>, weekly: set<string>, monthly: set<string>,
               a: set<string>, b: set<string>, c: set<string>, retain: set<string>)
    requires retain == a + b + c
    requires Generation(DayKey, keep.daily, dumps, i, daily, a)
    requires Generation(WeekKey, keep.weekly, dumps, i, weekly, b)
    requires Generation(MonthKey, keep.monthly, dumps, i, monthly, c)
    ensures AfterDumps(dumps, keep, i, daily, weekly, monthly, retain)
  {
  }

  lemma Regroup<T>(a: set<T>, b: set<T>, c: set<T>, x: set<T>, y: set<T>, z: set<T>)
    ensures a + b + c + x + y + z == (a + x) + (b + y) + (c + z)
  {
  }

  lemma AfterDump(dumps: seq<Dump>, keep: Keep, i: nat,
                  daily: set<string>, weekly: set<string>, monthly: set<string>, retain: set<string>)
    requires i < |dumps| && AfterDumps(dumps, keep, i, daily, weekly, monthly, retain)
    ensures var d := dumps[i];
            AfterDumps(dumps, keep, i + 1,
              SeenAfter(DayKey, keep.daily, d, daily), SeenAfter(WeekKey, keep.weekly, d, weekly),
              SeenAfter(MonthKey, keep.monthly, d, monthly),
              retain + Taken(DayKey, keep.daily, d, daily) + Taken(WeekKey, keep.weekly, d, weekly)
                + Taken(MonthKey, keep.monthly, d, monthly))
  {
    hide Generation, DayKey, WeekKey, MonthKey, SeenAfter, Taken;
    var d := dumps[i];
    var a, b, c :| retain == a + b + c
      && Generation(DayKey, keep.daily, dumps, i, daily, a)
      && Generation(WeekKey, keep.weekly, dumps, i, weekly, b)
      && Generation(MonthKey, keep.monthly, dumps, i, monthly, c);
    GenerationStep(DayKey, keep.daily, dumps, i, daily, a);
    GenerationStep(WeekKey, keep.weekly, dumps, i, weekly, b);
    GenerationStep(MonthKey, keep.monthly, dumps, i, monthly, c);
    var (x, y, z) := (Taken(DayKey, keep.daily, d, daily), Taken(WeekKey, keep.weekly, d, weekly),
                      Taken(MonthKey, keep.monthly, d, monthly));
    Regroup(a, b, c, x, y, z);
    hide AfterDumps;
    Gather(dumps, keep, i + 1, SeenAfter(DayKey, keep.daily, d, daily), SeenAfter(WeekKey, keep.weekly, d, weekly),
      SeenAfter(MonthKey, keep.monthly, d, monthly), a + x, b + y, c + z, retain + x + y + z);
  }

  lemma AllDumps(dumps: seq<Dump>, keep: Keep, daily: set<string>, weekly: set<string>, monthly: set<string>,
                 retain: set<string>)
    ensures AfterDumps(dumps, keep, 0, {}, {}, {}, {})
    ensures AfterDumps(dumps, keep, |dumps|, daily, weekly, monthly, retain) ==> retain == Retained(keep, dumps)
  {
    hide DayKey, WeekKey, MonthKey;
    var none: set<string> := {};
    assert dumps[0..] == dumps && none + none + none == none;
    assert Generation(DayKey, keep.daily, dumps, 0, {}, {}) && Generation(WeekKey, keep.weekly, dumps, 0, {}, {})
           && Generation(MonthKey, keep.monthly, dumps, 0, {}, {});
    if AfterDumps(dumps, keep, |dumps|, daily, weekly, monthly, retain) {
      assert dumps[|dumps|..] == [];
    }
  }

  // The newest-first loop, with its `retain` and three `seen` sets.
  method Generations(dumps: seq<Dump>, keep: Keep) returns (retain: set<string>)
    ensures retain == Retained(keep, dumps)
  {
    hide AfterDumps, SeenAfter, Taken, Retained, DayKey, WeekKey, MonthKey;
    var daily, weekly, monthly: set<string> := {}, {}, {};
    retain := {};
    AllDumps(dumps, keep, daily, weekly, monthly, retain);
    for i := 0 to |dumps|
      invariant AfterDumps(dumps, keep, i, daily, weekly, monthly, retain)
    {
      AfterDump(dumps, keep, i, daily, weekly, monthly, retain);
      daily, retain := Visit(DayKey, keep.daily, dumps[i], daily, retain);
      weekly, retain := Visit(WeekKey, keep.weekly, dumps[i], weekly, retain);
      monthly, retain := Visit(MonthKey, keep.monthly, dumps[i], monthly, retain);
    }
    AllDumps(dumps, keep, daily, weekly, monthly, retain);
  }

  method SelectForRetention(filenames: seq<string>, keep: Keep) returns (r: Result<Selection, RangeError>)
    ensures r.Success? <==> ParseAll(filenames).Success?
    ensures r.Success? ==>
              var dumps := SortNewestFirst(ParseAll(filenames).value);
              r.value == Selection(NamesIn(dumps, Retained(keep, dumps)), NamesOutside(dumps, Retained(keep, dumps)))
  {
    var parsed: seq<Dump> := [];
    var invalid := false;
    for i := 0 to |filenames|
      invariant ParseAll(filenames[..i]) == if invalid then Failure(InvalidTimeValue) else Success(parsed)
    {
      assert filenames[..i + 1][..i] == filenames[..i];
      match Parse(filenames[i])
      case NotADump =>
      case InvalidDate => invalid := true;
      case Parsed(d) => parsed := parsed + [d];
    }
    assert filenames[..|filenames|] == filenames;
    if invalid {
      return Failure(InvalidTimeValue);
    }
    var dumps := SortNewestFirst(parsed);
    var retain := Generations(dumps, keep);
    r := Success(Selection(NamesIn(dumps, retain), NamesOutside(dumps, retain)));
  }

  // -- What one pruning does ---------------------------------------------------------

  lemma {:induction false} NamesSplit(dumps: seq<Dump>, names: set<string>, name: string)
    ensures name in NamesIn(dumps, names) <==> name in names && exists d | d in dumps :: d.name == name
    ensures name in NamesOutside(dumps, names) <==> name !in names && exists d | d in dumps :: d.name == name
  {
    if dumps != [] {
      NamesSplit(dumps[1..], names, name);
      assert dumps[0] in dumps && forall d :: d in dumps <==> d == dumps[0] || d in dumps[1..];
    }
  }

  lemma {:induction false} ParsedAreDumps(filenames: seq<string>)
    requires ParseAll(filenames).Success?
    ensures forall d :: d in ParseAll(filenames).value <==>
              exists i | 0 <= i < |filenames| :: Parse(filenames[i]) == Parsed.Parsed(d)
  {
    if filenames != [] {
      hide Parse;
      var n := |filenames| - 1;
      ParsedAreDumps(filenames[..n]);
      assert forall i | 0 <= i < n :: filenames[..n][i] == filenames[i];
    }
  }

  lemma ParseKeepsName(name: string)
    requires Parse(name).Parsed?
    ensures Parse(name).dump.name == name
  {
  }

  // The dumps of a listing, newest first.
  function DumpsOf(filenames: seq<string>): seq<Dump>
    requires ParseAll(filenames).Success?
  {
    SortNewestFirst(ParseAll(filenames).value)
  }

  lemma DumpsOfMeaning(filenames: seq<string>, name: string)
    requires ParseAll(filenames).Success?
    ensures (exists d | d in DumpsOf(filenames) :: d.name == name) <==> name in filenames && Parse(name).Parsed?
  {
    hide Parse;
    var parsed := ParseAll(filenames).value;
    SortSorted(parsed);
    ParsedAreDumps(filenames);
    assert forall d :: d in DumpsOf(filenames) <==> d in multiset(DumpsOf(filenames));
    assert forall d :: d in parsed <==> d in multiset(parsed);
    if name in filenames && Parse(name).Parsed? {
      ParseKeepsName(name);
      assert Parse(name).dump in parsed;
    }
    forall d | d in parsed
      ensures d.name in filenames && Parse(d.name).Parsed?
    {
      var i :| 0 <= i < |filenames| && Parse(filenames[i]) == Parsed.Parsed(d);
      ParseKeepsName(filenames[i]);
    }
  }

  // Every file that parses is in exactly one of the two lists, and a file that
  // does not parse is in neither.
  lemma ListedExactlyOnce(filenames: seq<string>, keep: Keep, name: string)
    requires ParseAll(filenames).Success?
    ensures var dumps := DumpsOf(filenames);
            var retain, remove := NamesIn(dumps, Retained(keep, dumps)), NamesOutside(dumps, Retained(keep, dumps));
            && (name in retain || name in remove <==> name in filenames && Parse(name).Parsed?)
            && !(name in retain && name in remove)
  {
    hide Parse, Retained, SortNewestFirst;
    DumpsOfMeaning(filenames, name);
    NamesSplit(DumpsOf(filenames), Retained(keep, DumpsOf(filenames)), name);
  }

  // The newest dump is always retained, so the guard in main that refuses to
  // delete the dump just made never has to act.
  lemma NewestIsRetained(dumps: seq<Dump>, keep: Keep)
    requires dumps != [] && keep.daily + keep.weekly + keep.monthly > 0
    ensures dumps[0].name in Retained(keep, dumps)
    ensures dumps[0].name !in NamesOutside(dumps, Retained(keep, dumps))
  {
    hide DayKey, WeekKey, MonthKey;
    NamesSplit(dumps, Retained(keep, dumps), dumps[0].name);
  }

  lemma RetainedIsBounded(dumps: seq<Dump>, keep: Keep)
    ensures |Retained(keep, dumps)| <= keep.daily + keep.weekly + keep.monthly
  {
    hide Walk, DayKey, WeekKey, MonthKey;
    WalkNames(DayKey, keep.daily, dumps, {});
    WalkNames(WeekKey, keep.weekly, dumps, {});
    WalkNames(MonthKey, keep.monthly, dumps, {});
  }

  // The names marked for removal, in order, but for the dump just made.
  function Victims(remove: seq<string>, made: string): seq<string> {
    if remove == [] then []
    else
      var n := |remove| - 1;
      Victims(remove[..n], made) + if remove[n] == made then [] else [remove[n]]
  }

  ghost function SetOf(names: seq<string>): set<string> {
    set name | name in names
  }

  lemma {:induction false} FirstVictims(remove: seq<string>, i: nat, made: string)
    requires i <= |remove|
    ensures Victims(remove[..i], made) <= Victims(remove, made)
    decreases |remove|
  {
    if i == |remove| {
      assert remove[..i] == remove;
    } else {
      var n := |remove| - 1;
      assert remove[..n][..i] == remove[..i];
      FirstVictims(remove[..n], i, made);
    }
  }

  lemma NextVictim(remove: seq<string>, i: nat, made: string)
    requires i < |remove|
    ensures Victims(remove[..i + 1], made) == Victims(remove[..i], made) + if remove[i] == made then [] else [remove[i]]
  {
    assert remove[..i + 1][..i] == remove[..i];
  }

  lemma NoVictims(made: string)
    ensures Victims([], made) == []
  {
  }

  // The remote folder, and the deleting loop of main.
  class RemoteFolder {
    var files: set<string>

    // `deletes` is how many deletions succeed before one fails and ends the run:
    // exactly that many victims go, the newest first, or all of them.
    method Prune(listing: seq<string>, made: string, keep: Keep, deletes: nat)
      returns (r: Result<bool, RangeError>, ghost deleted: set<string>)
      modifies this
      ensures files == old(files) - deleted
      ensures r.Success? <==> ParseAll(listing).Success?
      ensures r.Failure? ==> deleted == {}
      ensures r.Success? ==>
                var dumps := DumpsOf(listing);
                var victims := Victims(NamesOutside(dumps, Retained(keep, dumps)), made);
                && (r.value <==> |victims| <= deletes)
                && deleted == SetOf(if |victims| <= deletes then victims else victims[..deletes])
    {
      hide Retained, NamesOutside, NamesIn, SortNewestFirst, ParseAll, Victims;
      deleted := {};
      var selection := SelectForRetention(listing, keep);
      if selection.Failure? {
        return Failure(InvalidTimeValue), deleted;
      }
      var remove := selection.value.remove;
      var left := deletes;
      assert remove[..0] == [];
      NoVictims(made);
      for i := 0 to |remove|
        invariant files == old(files) - deleted
        invariant deleted == SetOf(Victims(remove[..i], made)) && left == deletes - |Victims(remove[..i], made)|
      {
        var victim := remove[i];
        NextVictim(remove, i, made);
        if victim == made {
          continue;
        }
        if left == 0 {
          FirstVictims(remove, i + 1, made);
          FirstVictims(remove, i, made);
          return Success(false), deleted;
        }
        left := left - 1;
        files := files - {victim};
        deleted := deleted + {victim};
      }
      assert remove[..|remove|] == remove;
      r := Success(true);
    }
  }

  // -- Night after night ----------------------------------------------------------------

  // A walk with more buckets already seen keeps no more.
  lemma {:induction false} WalkShrinks(bucket: Dump -> string, allowance: nat, dumps: seq<Dump>, s: set<string>,
                                       t: set<string>)
    requires t <= s || |s| >= allowance
    ensures Walk(bucket, allowance, dumps, s) <= Walk(bucket, allowance, dumps, t)
  {
    if dumps != [] {
      var key := bucket(dumps[0]);
      if t <= s {
        SubsetSize(t, s);
      }
      WalkShrinks(bucket, allowance, dumps[1..],
        if |s| < allowance && key !in s then s + {key} else s,
        if |t| < allowance && key !in t then t + {key} else t);
    }
  }

  // The dumps that are left once some names are deleted.
  ghost function Without(dumps: seq<Dump>, gone: set<string>): seq<Dump> {
    if dumps == [] then []
    else (if dumps[0].name in gone then [] else [dumps[0]]) + Without(dumps[1..], gone)
  }

  // Deleting dumps a walk would not keep does not change what it keeps.
  lemma {:induction false} WalkIgnoresDeleted(
      bucket: Dump -> string, allowance: nat, dumps: seq<Dump>, seen: set<string>, gone: set<string>)
    requires Walk(bucket, allowance, dumps, seen) !! gone
    ensures Walk(bucket, allowance, Without(dumps, gone), seen) == Walk(bucket, allowance, dumps, seen)
  {
    if dumps != [] {
      var rest := Without(dumps[1..], gone);
      WalkIgnoresDeleted(bucket, allowance, dumps[1..], SeenAfter(bucket, allowance, dumps[0], seen), gone);
      assert ([dumps[0]] + rest)[1..] == rest && [] + rest == rest;
    }
  }

  lemma RetainedIgnoresDeleted(keep: Keep, dumps: seq<Dump>, gone: set<string>)
    requires Retained(keep, dumps) !! gone
    ensures Retained(keep, Without(dumps, gone)) == Retained(keep, dumps)
  {
    hide Walk, Without, DayKey, WeekKey, MonthKey;
    WalkIgnoresDeleted(DayKey, keep.daily, dumps, {}, gone);
    WalkIgnoresDeleted(WeekKey, keep.weekly, dumps, {}, gone);
    WalkIgnoresDeleted(MonthKey, keep.monthly, dumps, {}, gone);
  }

  // A newer dump retires older ones; it never brings one back.
  lemma RetainedWithNewer(keep: Keep, newer: Dump, dumps: seq<Dump>)
    ensures Retained(keep, [newer] + dumps) <= {newer.name} + Retained(keep, dumps)
  {
    hide DayKey, WeekKey, MonthKey;
    assert ([newer] + dumps)[1..] == dumps;
    WalkShrinks(DayKey, keep.daily, dumps, {DayKey(newer)}, {});
    WalkShrinks(WeekKey, keep.weekly, dumps, {WeekKey(newer)}, {});
    WalkShrinks(MonthKey, keep.monthly, dumps, {MonthKey(newer)}, {});
  }

  // One night: a new dump, then deletions. The dump may be missing from the
  // listing, which does not stop the pruning. A failing delete ends the night's
  // pruning early, so `deleted` may be any part of what was selected.
  datatype Night = Night(dump: Option<Dump>, deleted: set<string>)

  ghost function Names(dumps: seq<Dump>): set<string> {
    set d | d in dumps :: d.name
  }

  function MadeThatNight(night: Night): seq<Dump> {
    if night.dump.Some? then [night.dump.value] else []
  }

  // Every dump ever made, newest first.
  ghost function Made(nights: seq<Night>): seq<Dump> {
    if nights == [] then [] else MadeThatNight(nights[|nights| - 1]) + Made(nights[..|nights| - 1])
  }

  ghost function Gone(nights: seq<Night>): set<string> {
    if nights == [] then {} else Gone(nights[..|nights| - 1]) + nights[|nights| - 1].deleted
  }

  // What the remote folder lists when the last night's pruning starts, and when
  // it is over.
  ghost function Present(nights: seq<Night>): seq<Dump>
    requires nights != []
  {
    Without(Made(nights), Gone(nights[..|nights| - 1]))
  }

  ghost function Left(nights: seq<Night>): seq<Dump> {
    Without(Made(nights), Gone(nights))
  }

  // Each night's dump is newer than any before it, and that night deletes only
  // dumps that selectForRetention, given the listing, marks for removal.
  ghost predicate Run(keep: Keep, nights: seq<Night>) {
    nights != [] ==>
      var (before, night) := (nights[..|nights| - 1], nights[|nights| - 1]);
      && Run(keep, before)
      && (night.dump.Some? ==>
            Parse(night.dump.value.name) == Parsed.Parsed(night.dump.value)
            && forall d | d in Made(before) :: d.at < night.dump.value.at)
      && night.deleted <= Names(Present(nights)) - Retained(keep, Present(nights))
  }

  lemma {:induction false} NamesWithout(dumps: seq<Dump>, gone: set<string>)
    ensures Names(Without(dumps, gone)) == Names(dumps) - gone
  {
    if dumps != [] {
      var rest := Without(dumps[1..], gone);
      NamesWithout(dumps[1..], gone);
      assert dumps == [dumps[0]] + dumps[1..];
      assert Names(dumps) == {dumps[0].name} + Names(dumps[1..]);
      assert Names([dumps[0]] + rest) == {dumps[0].name} + Names(rest) && [] + rest == rest;
    }
  }

  lemma NamesOfBoth(a: seq<Dump>, b: seq<Dump>)
    ensures Names(a + b) == Names(a) + Names(b)
  {
  }

  lemma NothingIsOrdered()
    ensures StrictlyNewestFirst([])
  {
  }

  lemma OrderedCons(d: Dump, tail: seq<Dump>)
    ensures StrictlyNewestFirst([d] + tail) <==> StrictlyNewestFirst(tail) && forall e | e in tail :: e.at < d.at
  {
    var all := [d] + tail;
    assert forall i | 0 <= i < |tail| :: tail[i] == all[i + 1];
    if StrictlyNewestFirst(all) {
      forall e | e in tail
        ensures e.at < d.at
      {
        var i :| 0 <= i < |tail| && tail[i] == e;
        assert all[0].at > all[i + 1].at;
      }
    }
  }

  lemma {:induction false} MadeParse(keep: Keep, nights: seq<Night>)
    requires Run(keep, nights)
    ensures forall d | d in Made(nights) :: Parse(d.name) == Parsed.Parsed(d)
    ensures Gone(nights) <= Names(Made(nights))
    ensures StrictlyNewestFirst(Made(nights))
  {
    hide Parse, Retained, Without, Names, StrictlyNewestFirst;
    if nights != [] {
      var n := |nights| - 1;
      MadeParse(keep, nights[..n]);
      NamesWithout(Made(nights), Gone(nights[..n]));
      NamesOfBoth(MadeThatNight(nights[n]), Made(nights[..n]));
      if nights[n].dump.Some? {
        OrderedCons(nights[n].dump.value, Made(nights[..n]));
      } else {
        assert [] + Made(nights[..n]) == Made(nights[..n]);
      }
    } else {
      NothingIsOrdered();
    }
  }

  // However many nights pass, and wherever each night's pruning stopped, nothing
  // that one pruning of the whole history would keep has been deleted, and the
  // nightly selection from what is left is that of the whole history.
  lemma {:induction false} NothingRetainedIsDeleted(keep: Keep, nights: seq<Night>)
    requires Run(keep, nights)
    ensures Retained(keep, Made(nights)) !! Gone(nights)
    ensures nights != [] ==> Retained(keep, Present(nights)) == Retained(keep, Made(nights))
  {
    if nights != [] {
      var before, newest := nights[..|nights| - 1], nights[|nights| - 1].dump;
      MadeParse(keep, before);
      NothingRetainedIsDeleted(keep, before);
      assert newest.Some? ==> newest.value.name !in Names(Made(before));
      hide Retained, Without, Parse, Run;
      if newest.Some? {
        RetainedWithNewer(keep, newest.value, Made(before));
      } else {
        assert [] + Made(before) == Made(before);
      }
      RetainedIgnoresDeleted(keep, Made(nights), Gone(before));
    }
  }

  lemma RetainedNames(keep: Keep, dumps: seq<Dump>)
    ensures Retained(keep, dumps) <= Names(dumps)
  {
    hide Walk, DayKey, WeekKey, MonthKey;
    WalkNames(DayKey, keep.daily, dumps, {});
    WalkNames(WeekKey, keep.weekly, dumps, {});
    WalkNames(MonthKey, keep.monthly, dumps, {});
  }

  // After a night whose pruning ran to the end, the folder holds exactly what
  // one pruning of every dump ever made would keep.
  lemma NightlyPruningIsOnePruning(keep: Keep, nights: seq<Night>)
    requires nights != [] && Run(keep, nights)
    requires nights[|nights| - 1].deleted == Names(Present(nights)) - Retained(keep, Present(nights))
    ensures Names(Left(nights)) == Retained(keep, Made(nights))
  {
    NothingRetainedIsDeleted(keep, nights);
    hide Retained, Without, Run, Made;
    NamesWithout(Made(nights), Gone(nights));
    NamesWithout(Made(nights), Gone(nights[..|nights| - 1]));
    RetainedNames(keep, Made(nights));
  }

  // Pruning again changes nothing.
  lemma PruningIsIdempotent(keep: Keep, dumps: seq<Dump>)
    ensures var left := Without(dumps, Names(dumps) - Retained(keep, dumps));
            Names(left) - Retained(keep, left) == {}
  {
    var gone := Names(dumps) - Retained(keep, dumps);
    RetainedIgnoresDeleted(keep, dumps, gone);
    NamesWithout(dumps, gone);
  }

  lemma {:induction false} WithoutIsPart(dumps: seq<Dump>, gone: set<string>)
    ensures forall d | d in Without(dumps, gone) :: d in dumps
  {
    if dumps != [] {
      WithoutIsPart(dumps[1..], gone);
    }
  }

  lemma {:induction false} WithoutIsOrdered(dumps: seq<Dump>, gone: set<string>)
    requires StrictlyNewestFirst(dumps)
    ensures StrictlyNewestFirst(Without(dumps, gone))
  {
    if dumps != [] {
      assert dumps == [dumps[0]] + dumps[1..];
      hide StrictlyNewestFirst;
      OrderedCons(dumps[0], dumps[1..]);
      WithoutIsOrdered(dumps[1..], gone);
      WithoutIsPart(dumps[1..], gone);
      OrderedCons(dumps[0], Without(dumps[1..], gone));
      assert [] + Without(dumps[1..], gone) == Without(dumps[1..], gone);
    } else {
      assert Without(dumps, gone) == dumps;
    }
  }

  // The remote may list its files in any order and among files of other names:
  // the dumps the selection sees are those present.
  lemma ListingOrderIsImmaterial(keep: Keep, nights: seq<Night>, listing: seq<string>)
    requires nights != [] && Run(keep, nights) && ParseAll(listing).Success?
    requires multiset(ParseAll(listing).value) == multiset(Present(nights))
    ensures DumpsOf(listing) == Present(nights)
  {
    hide ParseAll, Parse, Run;
    MadeParse(keep, nights);
    SortSorted(ParseAll(listing).value);
    WithoutIsOrdered(Made(nights), Gone(nights[..|nights| - 1]));
    SortIsCanonical(DumpsOf(listing), Present(nights));
  }

  lemma {:induction false} VictimMembers(remove: seq<string>, made: string)
    ensures forall name :: name in Victims(remove, made) <==> name in remove && name != made
  {
    if remove != [] {
      var n := |remove| - 1;
      VictimMembers(remove[..n], made);
      assert remove == remove[..n] + [remove[n]];
    }
  }

  // The victims of a pruning are the deletions a night may make.
  lemma VictimsAreTheUnretained(keep: Keep, dumps: seq<Dump>, made: string)
    ensures SetOf(Victims(NamesOutside(dumps, Retained(keep, dumps)), made)) ==
            Names(dumps) - Retained(keep, dumps) - {made}
  {
    hide Retained, NamesOutside, NamesIn, Victims;
    var remove := NamesOutside(dumps, Retained(keep, dumps));
    VictimMembers(remove, made);
    forall name
      ensures name in remove <==> name in Names(dumps) && name !in Retained(keep, dumps)
    {
      NamesSplit(dumps, Retained(keep, dumps), name);
    }
  }

  // -- Dumps that were not confirmed -----------------------------------------------------------

  // A generation keeps one dump of a bucket, its newest. Pruning does not ask
  // whether a dump was confirmed, so what is left of the bucket holds a confirmed
  // dump exactly when that one is.
  lemma WalkKeepsConfirmedExactlyWhen(bucket: Dump -> string, allowance: nat, dumps: seq<Dump>, confirmed: set<string>,
                                      i: nat)
    requires i < |dumps| && NamesDistinct(dumps) && dumps[i].name in Walk(bucket, allowance, dumps, {})
    ensures forall j | 0 <= j < i :: bucket(dumps[j]) != bucket(dumps[i])
    ensures (exists j | 0 <= j < |dumps| :: bucket(dumps[j]) == bucket(dumps[i]) && dumps[j].name in confirmed
                                            && dumps[j].name in Walk(bucket, allowance, dumps, {}))
            <==> dumps[i].name in confirmed
  {
    hide Walk;
    WalkMeaning(bucket, allowance, dumps, {}, i);
    forall j | 0 <= j < |dumps| && j != i && bucket(dumps[j]) == bucket(dumps[i])
      ensures i < j && dumps[j].name !in Walk(bucket, allowance, dumps, {})
    {
      WalkMeaning(bucket, allowance, dumps, {}, j);
    }
  }

  lemma MonthTextInjective(a: Calendar.Civil, b: Calendar.Civil)
    requires Calendar.Valid(a) && Calendar.Valid(b)
    requires Calendar.YearText(a.year) + "-" + Pad2(a.month) == Calendar.YearText(b.year) + "-" + Pad2(b.month)
    ensures a.year == b.year && a.month == b.month
  {
    hide Calendar.YearText, Pad2;
    var (s, t) := (Calendar.YearText(a.year), Calendar.YearText(b.year));
    var (u, v) := (s + "-" + Pad2(a.month), t + "-" + Pad2(b.month));
    assert u[|u| - 2..] == Pad2(a.month) && v[|v| - 2..] == Pad2(b.month);
    assert u[..|u| - 3] == s && v[..|v| - 3] == t;
    Calendar.YearTextInjective(a.year, b.year);
    Pad2Injective(a.month, b.month);
  }

  // The key strings separate exactly the days, the weeks from Monday and the
  // months of the calendar.
  lemma KeysAreDayWeekAndMonth(a: Dump, b: Dump)
    ensures DayKey(a) == DayKey(b) <==> Day(a) == Day(b)
    ensures WeekKey(a) == WeekKey(b) <==> Calendar.WeekStart(Day(a)) == Calendar.WeekStart(Day(b))
    ensures MonthKey(a) == MonthKey(b) <==>
            var (c, d) := (Calendar.CivilOf(Day(a)), Calendar.CivilOf(Day(b)));
            c.year == d.year && c.month == d.month
  {
    hide Day, Calendar.WeekKeyText, Calendar.WeekStart, Calendar.DateText;
    if DayKey(a) == DayKey(b) {
      Calendar.DateTextInjective(Day(a), Day(b));
    }
    Calendar.WeekKeyTextInjective(Day(a), Day(b));
    if MonthKey(a) == MonthKey(b) {
      MonthTextInjective(Calendar.CivilOf(Day(a)), Calendar.CivilOf(Day(b)));
    }
  }

  // A dump's day and month are read off the name the run gave it.
  lemma KeysAreInTheName(at: int)
    requires 0 <= Calendar.CivilOf(at / MINUTES_PER_DAY).year <= 9999
    ensures var name := DumpName(at);
            Parse(name) == Parsed.Parsed(Dump(name, at))
            && DayKey(Dump(name, at)) == name[11..21] && MonthKey(Dump(name, at)) == name[11..18]
  {
    hide Calendar.CivilOf, Pad2, Pad4, Parse;
    ParseDumpName(at);
    var c := Calendar.CivilOf(at / MINUTES_PER_DAY);
    var name := DumpName(at);
    assert name[11..15] == Pad4(c.year) && name[15] == '-' && name[16..18] == Pad2(c.month) && name[18] == '-';
    assert name[19..21] == Pad2(c.day);
    assert name[11..18] == name[11..15] + [name[15]] + name[16..18];
    assert name[11..21] == name[11..18] + [name[18]] + name[19..21];
  }

  // Whichever generation retains it, a retained dump is the newest of its day.
  lemma RetainedIsNewestOfItsDay(keep: Keep, dumps: seq<Dump>, i: nat, j: nat)
    requires NamesDistinct(dumps) && j < i < |dumps| && dumps[i].name in Retained(keep, dumps)
    ensures Day(dumps[j]) != Day(dumps[i])
  {
    hide Walk, DayKey, WeekKey, MonthKey, Day;
    KeysAreDayWeekAndMonth(dumps[j], dumps[i]);
    if dumps[i].name in Walk(DayKey, keep.daily, dumps, {}) {
      WalkKeepsConfirmedExactlyWhen(DayKey, keep.daily, dumps, {}, i);
    } else if dumps[i].name in Walk(WeekKey, keep.weekly, dumps, {}) {
      WalkKeepsConfirmedExactlyWhen(WeekKey, keep.weekly, dumps, {}, i);
    } else {
      WalkKeepsConfirmedExactlyWhen(MonthKey, keep.monthly, dumps, {}, i);
    }
  }

  // So of a day with two dumps the earlier one is deleted, and if only that one
  // was confirmed the day is left without a confirmed dump: a retained day has one
  // exactly when its newest dump was confirmed.
  lemma RetainedDayIsConfirmedExactlyWhen(keep: Keep, dumps: seq<Dump>, confirmed: set<string>, i: nat)
    requires i < |dumps| && NamesDistinct(dumps) && dumps[i].name in Retained(keep, dumps)
    ensures (exists j | 0 <= j < |dumps| :: Day(dumps[j]) == Day(dumps[i]) && dumps[j].name in confirmed
                                            && dumps[j].name in Retained(keep, dumps))
            <==> dumps[i].name in confirmed
  {
    hide Retained, Day;
    forall j: nat | j < |dumps| && Day(dumps[j]) == Day(dumps[i]) && dumps[j].name in Retained(keep, dumps)
      ensures j == i
    {
      if j < i {
        RetainedIsNewestOfItsDay(keep, dumps, i, j);
      } else if i < j {
        RetainedIsNewestOfItsDay(keep, dumps, j, i);
      }
    }
  }

  // A dump is the newest of its period, among the newest `allowance` periods.
  ghost predicate IsNewestOf<P(!new)>(period: Dump -> P, allowance: nat, dumps: seq<Dump>, i: nat)
    requires i < |dumps|
  {
    && (forall j | 0 <= j < i :: period(dumps[j]) != period(dumps[i]))
    && |BucketsBefore(period, dumps, i)| < allowance
  }

  // Two namings of the same periods.
  ghost predicate SamePeriods<P(!new)>(bucket: Dump -> string, period: Dump -> P) {
    forall a, b :: bucket(a) == bucket(b) <==> period(a) == period(b)
  }

  lemma NoBuckets<P(!new)>(period: Dump -> P, dumps: seq<Dump>)
    ensures BucketsBefore(period, dumps, 0) == {}
  {
  }

  lemma BucketAdded<P(!new)>(period: Dump -> P, dumps: seq<Dump>, i: nat)
    requires 0 < i <= |dumps|
    ensures BucketsBefore(period, dumps, i) == BucketsBefore(period, dumps, i - 1) + {period(dumps[i - 1])}
  {
  }

  lemma BucketTaken<P(!new)>(bucket: Dump -> string, period: Dump -> P, dumps: seq<Dump>, i: nat, d: Dump)
    requires SamePeriods(bucket, period) && i <= |dumps|
    ensures bucket(d) in BucketsBefore(bucket, dumps, i) <==> period(d) in BucketsBefore(period, dumps, i)
  {
    assert bucket(d) in BucketsBefore(bucket, dumps, i) <==> exists j | 0 <= j < i :: bucket(dumps[j]) == bucket(d);
    assert period(d) in BucketsBefore(period, dumps, i) <==> exists j | 0 <= j < i :: period(dumps[j]) == period(d);
  }

  lemma OneMore<T>(s: set<T>, x: T)
    ensures |s + {x}| == |s| + if x in s then 0 else 1
  {
    if x in s {
      assert s + {x} == s;
    }
  }

  lemma {:induction false} AsManyBuckets<P(!new)>(bucket: Dump -> string, period: Dump -> P, dumps: seq<Dump>, i: nat)
    requires SamePeriods(bucket, period) && i <= |dumps|
    ensures |BucketsBefore(bucket, dumps, i)| == |BucketsBefore(period, dumps, i)|
  {
    hide BucketsBefore, SamePeriods;
    if i == 0 {
      NoBuckets(bucket, dumps);
      NoBuckets(period, dumps);
    } else {
      AsManyBuckets(bucket, period, dumps, i - 1);
      BucketAdded(bucket, dumps, i);
      BucketAdded(period, dumps, i);
      BucketTaken(bucket, period, dumps, i - 1, dumps[i - 1]);
      OneMore(BucketsBefore(bucket, dumps, i - 1), bucket(dumps[i - 1]));
      OneMore(BucketsBefore(period, dumps, i - 1), period(dumps[i - 1]));
    }
  }

  lemma WalkKeepsTheNewest<P(!new)>(bucket: Dump -> string, period: Dump -> P, allowance: nat, dumps: seq<Dump>, i: nat)
    requires i < |dumps| && NamesDistinct(dumps) && SamePeriods(bucket, period)
    ensures dumps[i].name in Walk(bucket, allowance, dumps, {}) <==> IsNewestOf(period, allowance, dumps, i)
  {
    hide Walk;
    WalkMeaning(bucket, allowance, dumps, {}, i);
    assert {} + BucketsBefore(bucket, dumps, i) == BucketsBefore(bucket, dumps, i);
    AsManyBuckets(bucket, period, dumps, i);
  }

  // The Monday of a dump's week, and its month.
  function Week(d: Dump): int { Calendar.WeekStart(Day(d)) }

  function Month(d: Dump): (int, int) {
    (Calendar.CivilOf(Day(d)).year, Calendar.CivilOf(Day(d)).month)
  }

  // The three generations together keep a dump exactly when it is the newest of
  // one of its day, its week and its month, recently enough for that generation.
  ghost predicate IsKept(keep: Keep, dumps: seq<Dump>, i: nat)
    requires i < |dumps|
  {
    || IsNewestOf(Day, keep.daily, dumps, i)
    || IsNewestOf(Week, keep.weekly, dumps, i)
    || IsNewestOf(Month, keep.monthly, dumps, i)
  }

  lemma RetainedExactlyWhen(keep: Keep, dumps: seq<Dump>, i: nat)
    requires i < |dumps| && NamesDistinct(dumps)
    ensures dumps[i].name in Retained(keep, dumps) <==> IsKept(keep, dumps, i)
  {
    hide Walk, DayKey, WeekKey, MonthKey, IsNewestOf, Day, Calendar.WeekStart, Calendar.CivilOf;
    forall a, b
      ensures DayKey(a) == DayKey(b) <==> Day(a) == Day(b)
      ensures WeekKey(a) == WeekKey(b) <==> Week(a) == Week(b)
      ensures MonthKey(a) == MonthKey(b) <==> Month(a) == Month(b)
    {
      KeysAreDayWeekAndMonth(a, b);
    }
    WalkKeepsTheNewest(DayKey, Day, keep.daily, dumps, i);
    WalkKeepsTheNewest(WeekKey, Week, keep.weekly, dumps, i);
    WalkKeepsTheNewest(MonthKey, Month, keep.monthly, dumps, i);
  }

  ghost predicate ConfirmedKeptIn<P(!new)>(keep: Keep, dumps: seq<Dump>, confirmed: set<string>, period: Dump -> P,
                                           value: P) {
    exists i | 0 <= i < |dumps| ::
      period(dumps[i]) == value && dumps[i].name in confirmed && dumps[i].name in Retained(keep, dumps)
  }

  // So a week or a month (any period) is left with a confirmed dump if and only
  // if one of its confirmed dumps is the newest of its day, week or month and
  // within that generation's allowance.
  lemma RetainedBucketIsConfirmedExactlyWhen<P(!new)>(keep: Keep, dumps: seq<Dump>, confirmed: set<string>,
                                                      period: Dump -> P, value: P)
    requires NamesDistinct(dumps)
    ensures ConfirmedKeptIn(keep, dumps, confirmed, period, value) <==>
            exists i | 0 <= i < |dumps| ::
              period(dumps[i]) == value && dumps[i].name in confirmed && IsKept(keep, dumps, i)
  {
    hide Retained, IsKept;
    forall i | 0 <= i < |dumps|
      ensures dumps[i].name in Retained(keep, dumps) <==> IsKept(keep, dumps, i)
    {
      RetainedExactlyWhen(keep, dumps, i);
    }
  }

  // Past the daily generation a week depends on one dump: if no day of it is
  // among those still kept, nor a month's newest dump in it, a retained week has a
  // confirmed dump exactly when its newest dump was confirmed.
  lemma OlderWeekIsConfirmedExactlyWhen(keep: Keep, dumps: seq<Dump>, confirmed: set<string>, i: nat)
    requires i < |dumps| && NamesDistinct(dumps) && IsNewestOf(Week, keep.weekly, dumps, i)
    requires forall j | 0 <= j < |dumps| && Week(dumps[j]) == Week(dumps[i]) ::
               !IsNewestOf(Day, keep.daily, dumps, j) && !IsNewestOf(Month, keep.monthly, dumps, j)
    ensures ConfirmedKeptIn(keep, dumps, confirmed, Week, Week(dumps[i])) <==> dumps[i].name in confirmed
  {
    hide ConfirmedKeptIn, Day, Week, Month, BucketsBefore;
    RetainedBucketIsConfirmedExactlyWhen(keep, dumps, confirmed, Week, Week(dumps[i]));
  }

  lemma LaterDumpTakesTheDay(keep: Keep, later: Dump, earlier: Dump)
    requires later.name != earlier.name && Day(later) == Day(earlier) && keep.daily + keep.weekly + keep.monthly > 0
    ensures later.name in Retained(keep, [later, earlier]) && earlier.name !in Retained(keep, [later, earlier])
    ensures !ConfirmedKeptIn(keep, [later, earlier], {earlier.name}, Day, Day(later))
  {
    var dumps := [later, earlier];
    hide Retained, Day;
    NewestIsRetained(dumps, keep);
    if earlier.name in Retained(keep, dumps) {
      RetainedIsNewestOfItsDay(keep, dumps, 1, 0);
    }
  }

  // Two dumps of one day, of which only the earlier was confirmed: pruning keeps
  // the later, and the day is left without a confirmed dump.
  lemma CorruptDumpTakesTheDay()
    ensures var later := Dump("busproject-1970-01-01T0001Z.dump", 1);
            var earlier := Dump("busproject-1970-01-01T0000Z.dump", 0);
            var (keep, dumps) := (Keep(7, 4, 12), [later, earlier]);
            && later.name in Retained(keep, dumps) && earlier.name !in Retained(keep, dumps)
            && !ConfirmedKeptIn(keep, dumps, {earlier.name}, Day, Day(later))
  {
    var later := Dump("busproject-1970-01-01T0001Z.dump", 1);
    var earlier := Dump("busproject-1970-01-01T0000Z.dump", 0);
    hide Retained, ConfirmedKeptIn;
    assert later.name[25] != earlier.name[25];
    assert Day(later) == Day(earlier);
    LaterDumpTakesTheDay(Keep(7, 4, 12), later, earlier);
  }
}
