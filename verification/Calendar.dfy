// The proleptic Gregorian calendar behind "YYYY-MM-DD" strings: the arithmetic
// of Date.UTC and toISOString, and the week computations built on it.
//
// A date is carried through the rest of the project as its day number (days
// since 1970-01-01); the lemmas here are what make that representation and the
// source's strings interchangeable.
module Calendar {
  import opened Text

  datatype Civil = Civil(year: int, month: int, day: int)

  predicate IsLeap(year: int) {
    year % 4 == 0 && (year % 100 != 0 || year % 400 == 0)
  }

  function DaysInYear(year: int): int {
    if IsLeap(year) then 366 else 365
  }

  // Day number of 1 January.
  function YearStart(year: int): int
    decreases if year < 1970 then 1970 - year else year - 1970
  {
    if year == 1970 then 0
    else if year > 1970 then YearStart(year - 1) + DaysInYear(year - 1)
    else YearStart(year + 1) - DaysInYear(year)
  }

  function DaysInMonth(year: int, month: int): int
    requires 1 <= month <= 12
  {
    if month == 2 then (if IsLeap(year) then 29 else 28)
    else if month in {4, 6, 9, 11} then 30 else 31
  }

  // Days of the year that precede the given month.
  function DaysBefore(year: int, month: int): int
    requires 1 <= month <= 13
    decreases month
  {
    if month == 1 then 0 else DaysBefore(year, month - 1) + DaysInMonth(year, month - 1)
  }

  predicate Valid(c: Civil) {
    1 <= c.month <= 12 && 1 <= c.day <= DaysInMonth(c.year, c.month)
  }

  // Date.UTC(y, m - 1, d), in days. A day past the end of its month runs on
  // into the next one, as it does there.
  function DayOf(c: Civil): int
    requires 1 <= c.month <= 12
  {
    YearStart(c.year) + DaysBefore(c.year, c.month) + c.day - 1
  }

  lemma YearLength(year: int)
    ensures YearStart(year + 1) == YearStart(year) + DaysInYear(year)
  {
  }

  // DayFromYear of ECMA-262, section 21.4.1.3, which Date.UTC is defined by.
  function DayFromYear(year: int): int {
    365 * (year - 1970) + (year - 1969) / 4 - (year - 1901) / 100 + (year - 1601) / 400
  }

  lemma NextFourth(year: int)
    ensures (year - 1968) / 4 - (year - 1969) / 4 == if year % 4 == 0 then 1 else 0
  {
  }

  lemma NextHundredth(year: int)
    ensures (year - 1900) / 100 - (year - 1901) / 100 == if year % 100 == 0 then 1 else 0
  {
  }

  lemma NextFourHundredth(year: int)
    ensures (year - 1600) / 400 - (year - 1601) / 400 == if year % 400 == 0 then 1 else 0
  {
  }

  lemma MultiplesNest(year: int)
    ensures year % 400 == 0 ==> year % 100 == 0
    ensures year % 100 == 0 ==> year % 4 == 0
  {
  }

  lemma DayFromNextYear(year: int)
    ensures DayFromYear(year + 1) == DayFromYear(year) + DaysInYear(year)
  {
    NextFourth(year);
    NextHundredth(year);
    NextFourHundredth(year);
    MultiplesNest(year);
    var (a, b, c) := (year - 1968, year - 1900, year - 1600);
    assert year + 1 - 1969 == a && year + 1 - 1901 == b && year + 1 - 1601 == c;
  }

  lemma {:induction false} YearStartIsDayFromYear(year: int)
    ensures YearStart(year) == DayFromYear(year)
    decreases if year < 1970 then 1970 - year else year - 1970
  {
    if year == 1970 {
      assert DayFromYear(1970) == 0;
    } else {
      hide DayFromYear, DaysInYear;
      if year > 1970 {
        YearStartIsDayFromYear(year - 1);
        DayFromNextYear(year - 1);
      } else {
        YearStartIsDayFromYear(year + 1);
        DayFromNextYear(year);
      }
    }
  }

  lemma {:induction false} YearStartBound(year: int)
    ensures year >= 1970 ==> YearStart(year) <= 366 * (year - 1970)
    ensures year <= 1970 ==> YearStart(year) <= 365 * (year - 1970)
    decreases if year < 1970 then 1970 - year else year - 1970
  {
    if year > 1970 {
      YearStartBound(year - 1);
    } else if year < 1970 {
      YearStartBound(year + 1);
    }
  }

  lemma {:induction false} YearStartMonotone(a: int, b: int)
    requires a <= b
    ensures YearStart(a) <= YearStart(b)
    ensures a < b ==> YearStart(a) + DaysInYear(a) <= YearStart(b)
    decreases b - a
  {
    YearLength(a);
    if a < b {
      YearStartMonotone(a + 1, b);
    }
  }

  function YearFrom(n: int, guess: int): (year: int)
    requires YearStart(guess) <= n
    ensures YearStart(year) <= n < YearStart(year + 1)
    decreases n - YearStart(guess)
  {
    if n < YearStart(guess + 1) then guess
    else
      YearLength(guess);
      YearFrom(n, guess + 1)
  }

  // The year a day number falls in: the last one starting on or before it.
  function YearOf(n: int): (year: int)
    ensures YearStart(year) <= n < YearStart(year + 1)
  {
    var guess := 1970 + n / (if n >= 0 then 366 else 365);
    YearStartBound(guess);
    YearFrom(n, guess)
  }

  lemma YearReached(n: int, year: int)
    ensures n >= YearStart(year) <==> YearOf(n) >= year
  {
    hide YearOf, YearStart;
    if YearOf(n) >= year {
      YearStartMonotone(year, YearOf(n));
    } else {
      YearStartMonotone(YearOf(n) + 1, year);
    }
  }

  lemma MonthLengths(year: int)
    ensures DaysBefore(year, 2) == 31
    ensures DaysBefore(year, 3) == 59 + DaysInYear(year) - 365
    ensures DaysBefore(year, 4) == DaysBefore(year, 3) + 31
    ensures DaysBefore(year, 5) == DaysBefore(year, 3) + 61
    ensures DaysBefore(year, 6) == DaysBefore(year, 3) + 92
    ensures DaysBefore(year, 7) == DaysBefore(year, 3) + 122
    ensures DaysBefore(year, 8) == DaysBefore(year, 3) + 153
    ensures DaysBefore(year, 9) == DaysBefore(year, 3) + 184
    ensures DaysBefore(year, 10) == DaysBefore(year, 3) + 214
    ensures DaysBefore(year, 11) == DaysBefore(year, 3) + 245
    ensures DaysBefore(year, 12) == DaysBefore(year, 3) + 275
    ensures DaysBefore(year, 13) == DaysInYear(year)
  {
    assert DaysBefore(year, 2) == 31;
    assert DaysBefore(year, 3) == DaysBefore(year, 2) + DaysInMonth(year, 2);
    assert DaysBefore(year, 4) == DaysBefore(year, 3) + 31;
    assert DaysBefore(year, 5) == DaysBefore(year, 4) + 30;
    assert DaysBefore(year, 6) == DaysBefore(year, 5) + 31;
    assert DaysBefore(year, 7) == DaysBefore(year, 6) + 30;
    assert DaysBefore(year, 8) == DaysBefore(year, 7) + 31;
    assert DaysBefore(year, 9) == DaysBefore(year, 8) + 31;
    assert DaysBefore(year, 10) == DaysBefore(year, 9) + 30;
    assert DaysBefore(year, 11) == DaysBefore(year, 10) + 31;
    assert DaysBefore(year, 12) == DaysBefore(year, 11) + 30;
  }

  lemma {:induction false} DaysBeforeMonotone(year: int, a: int, b: int)
    requires 1 <= a <= b <= 13
    ensures DaysBefore(year, a) <= DaysBefore(year, b)
    ensures a < b ==> DaysBefore(year, a) + DaysInMonth(year, a) <= DaysBefore(year, b)
    decreases b - a
  {
    if a < b {
      DaysBeforeMonotone(year, a, b - 1);
    }
  }

  // The month of a zero-based day of the year.
  function MonthFrom(year: int, dayOfYear: int, month: int): (m: int)
    requires 1 <= month <= 12
    requires DaysBefore(year, month) <= dayOfYear < DaysInYear(year)
    ensures 1 <= m <= 12
    ensures DaysBefore(year, m) <= dayOfYear < DaysBefore(year, m + 1)
    decreases 12 - month
  {
    MonthLengths(year);
    if dayOfYear < DaysBefore(year, month + 1) then month else MonthFrom(year, dayOfYear, month + 1)
  }

  // new Date(n days).toISOString(), split into its fields.
  function CivilOf(n: int): (c: Civil)
    ensures Valid(c) && DayOf(c) == n
  {
    var year := YearOf(n);
    YearLength(year);
    var dayOfYear := n - YearStart(year);
    var month := MonthFrom(year, dayOfYear, 1);
    Civil(year, month, dayOfYear - DaysBefore(year, month) + 1)
  }

  lemma SinceNewYear(n: int, year: int)
    ensures n >= YearStart(year) <==> CivilOf(n).year >= year
  {
    hide YearOf, YearStart, MonthFrom;
    YearReached(n, year);
  }

  predicate Before(a: Civil, b: Civil) {
    a.year < b.year
    || (a.year == b.year && (a.month < b.month || (a.month == b.month && a.day < b.day)))
  }

  lemma WithinYear(c: Civil)
    requires Valid(c)
    ensures YearStart(c.year) <= DayOf(c) < YearStart(c.year) + DaysInYear(c.year)
  {
    MonthLengths(c.year);
    DaysBeforeMonotone(c.year, 1, c.month);
    DaysBeforeMonotone(c.year, c.month, 13);
  }

  lemma BeforeIsDayOrder(a: Civil, b: Civil)
    requires Valid(a) && Valid(b)
    ensures Before(a, b) <==> DayOf(a) < DayOf(b)
    ensures DayOf(a) == DayOf(b) ==> a == b
  {
    WithinYear(a);
    WithinYear(b);
    if a.year < b.year {
      YearStartMonotone(a.year, b.year);
    } else if b.year < a.year {
      YearStartMonotone(b.year, a.year);
    } else if a.month < b.month {
      DaysBeforeMonotone(a.year, a.month, b.month);
    } else if b.month < a.month {
      DaysBeforeMonotone(a.year, b.month, a.month);
    }
  }

  // Fields to day number and back again loses nothing in either direction.
  lemma CivilRoundTrip(c: Civil)
    requires Valid(c)
    ensures CivilOf(DayOf(c)) == c
  {
    BeforeIsDayOrder(CivilOf(DayOf(c)), c);
  }

  // addDays: parse, shift by whole days, print.
  function AddDays(c: Civil, days: int): (r: Civil)
    requires Valid(c)
    ensures Valid(r) && DayOf(r) == DayOf(c) + days
  {
    CivilOf(DayOf(c) + days)
  }

  lemma AddDaysAdditive(c: Civil, i: int, j: int)
    requires Valid(c)
    ensures AddDays(AddDays(c, i), j) == AddDays(c, i + j)
    ensures AddDays(c, 0) == c
    ensures AddDays(AddDays(c, i), -i) == c
  {
    hide CivilOf, DayOf;
    CivilRoundTrip(c);
  }

  // -- Text -------------------------------------------------------------------

  // Years outside 0..9999, which no feed carries, are written with a sign.
  function YearText(year: int): (s: string)
    ensures '|' !in s
  {
    if 0 <= year <= 9999 then Pad4(year)
    else if year < 0 then "-" + Decimal(-year) else "+" + Decimal(year)
  }

  // The "-MM-DD" tail of a date string, and its order.
  function Tail(month: nat, day: nat): string
    requires month < 100 && day < 100
  {
    "-" + Pad2(month) + "-" + Pad2(day)
  }

  function CivilText(c: Civil): (s: string)
    requires Valid(c)
    ensures '|' !in s
  {
    YearText(c.year) + Tail(c.month, c.day)
  }

  // localDateString / toISOString().slice(0, 10)
  function DateText(n: int): (s: string)
    ensures '|' !in s
  {
    CivilText(CivilOf(n))
  }

  lemma YearTextInjective(a: int, b: int)
    requires YearText(a) == YearText(b)
    ensures a == b
  {
    var s, t := YearText(a), YearText(b);
    if 0 <= a <= 9999 {
      assert IsDigit(s[0]);
      Pad4Injective(a, b);
    } else {
      assert !IsDigit(t[0]);
      assert s[1..] == t[1..];
      if a < 0 { DecimalInjective(-a, -b); } else { DecimalInjective(a, b); }
    }
  }

  lemma CivilTextInjective(a: Civil, b: Civil)
    requires Valid(a) && Valid(b) && CivilText(a) == CivilText(b)
    ensures a == b
  {
    hide YearText, Pad2;
    var s := CivilText(a);
    var n := |s| - 6;
    assert s == YearText(a.year) + ("-" + Pad2(a.month) + "-" + Pad2(a.day));
    assert s == YearText(b.year) + ("-" + Pad2(b.month) + "-" + Pad2(b.day));
    assert s[..n] == YearText(a.year) && s[..n] == YearText(b.year);
    YearTextInjective(a.year, b.year);
    assert s[n..] == "-" + Pad2(a.month) + "-" + Pad2(a.day);
    assert s[n..] == "-" + Pad2(b.month) + "-" + Pad2(b.day);
    assert s[n..][1..3] == Pad2(a.month) && s[n..][1..3] == Pad2(b.month);
    assert s[n..][4..] == Pad2(a.day) && s[n..][4..] == Pad2(b.day);
    Pad2Injective(a.month, b.month);
    Pad2Injective(a.day, b.day);
  }

  // A date string names one day.
  lemma DateTextInjective(m: int, n: int)
    requires DateText(m) == DateText(n)
    ensures m == n
  {
    CivilTextInjective(CivilOf(m), CivilOf(n));
  }

  lemma TailOrder(m: nat, d: nat, m': nat, d': nat)
    requires m < 100 && d < 100 && m' < 100 && d' < 100
    ensures Less(Tail(m, d), Tail(m', d')) <==> m < m' || (m == m' && d < d')
  {
    assert !Less("-", "-");
    hide Pad2, Less;
    assert Tail(m, d) == "-" + (Pad2(m) + ("-" + Pad2(d)));
    assert Tail(m', d') == "-" + (Pad2(m') + ("-" + Pad2(d')));
    LessOnFields("-", "-", Pad2(m) + ("-" + Pad2(d)), Pad2(m') + ("-" + Pad2(d')));
    LessOnFields(Pad2(m), Pad2(m'), "-" + Pad2(d), "-" + Pad2(d'));
    LessOnFields("-", "-", Pad2(d), Pad2(d'));
    LessOnPad2(m, m');
    LessOnPad2(d, d');
    if Pad2(m) == Pad2(m') { Pad2Injective(m, m'); }
  }

  // Comparing YYYY-MM-DD strings compares days, so `date <= end` in the
  // calendar loop and `addDays(upper, -1) >= cutoff` in the drop guard are the
  // day-number comparisons the rest of this project writes.
  lemma DateTextOrder(m: int, n: int)
    requires 0 <= CivilOf(m).year <= 9999 && 0 <= CivilOf(n).year <= 9999
    ensures Less(DateText(m), DateText(n)) <==> m < n
  {
    hide CivilOf, DayOf, Pad4, Less;
    var a, b := CivilOf(m), CivilOf(n);
    BeforeIsDayOrder(a, b);
    LessOnFields(Pad4(a.year), Pad4(b.year), Tail(a.month, a.day), Tail(b.month, b.day));
    LessOnPad4(a.year, b.year);
    TailOrder(a.month, a.day, b.month, b.day);
    if Pad4(a.year) == Pad4(b.year) { Pad4Injective(a.year, b.year); }
  }

  // -- Weeks ------------------------------------------------------------------

  // getUTCDay: Sunday is 0. 1970-01-01 was a Thursday.
  function DayOfWeek(n: int): (d: int)
    ensures 0 <= d < 7
  {
    (n + 4) % 7
  }

  // weekStart: the Monday on or before a date.
  function WeekStart(n: int): (monday: int)
    ensures DayOfWeek(monday) == 1 && monday <= n < monday + 7
  {
    n - (DayOfWeek(n) + 6) % 7
  }

  lemma WeekStartUnique(n: int, monday: int)
    requires DayOfWeek(monday) == 1 && monday <= n < monday + 7
    ensures WeekStart(n) == monday
  {
  }

  // The retention script's own week computation: the Thursday of the week
  // names the year, and the week is counted from that year's 1 January.
  function WeekKey(n: int): (int, nat) {
    var dow := if DayOfWeek(n) == 0 then 7 else DayOfWeek(n);
    var thursday := n + 4 - dow;
    var year := YearOf(thursday);
    // ceil((thursday - yearStart + 1) / 7)
    (year, (thursday - YearStart(year) + 7) / 7)
  }

  // `${year}-W${week}`
  function WeekKeyText(n: int): string {
    var (year, week) := WeekKey(n);
    YearText(year) + "-W" + Decimal(week)
  }

  // The Thursday of a week, as the retention key finds it.
  lemma WeekThursday(n: int)
    ensures WeekStart(n) + 3 == n + 4 - (if DayOfWeek(n) == 0 then 7 else DayOfWeek(n))
  {
  }

  lemma SameWeekday(a: int, b: int)
    requires DayOfWeek(a) == DayOfWeek(b)
    ensures (a - b) % 7 == 0
  {
  }

  // The two week computations in the repository agree: two dates share a
  // retention week exactly when they share a partition week.
  lemma WeekKeyIsWeekStart(m: int, n: int)
    ensures WeekKey(m) == WeekKey(n) <==> WeekStart(m) == WeekStart(n)
  {
    hide YearOf, YearStart, WeekStart, DayOfWeek;
    WeekThursday(m);
    WeekThursday(n);
    SameWeekday(WeekStart(m), WeekStart(n));
  }

  lemma WeekKeyTextInjective(m: int, n: int)
    ensures WeekKeyText(m) == WeekKeyText(n) <==> WeekStart(m) == WeekStart(n)
  {
    hide WeekKey, WeekStart, YearText, Decimal;
    WeekKeyIsWeekStart(m, n);
    var (y, v) := WeekKey(m);
    var (z, w) := WeekKey(n);
    var s := WeekKeyText(m);
    if s == WeekKeyText(n) {
      assert s == YearText(y) + "-" + ("W" + Decimal(v));
      assert s == YearText(z) + "-" + ("W" + Decimal(w));
      assert '-' !in "W" + Decimal(v) && '-' !in "W" + Decimal(w);
      CutAtLast(YearText(y), YearText(z), "W" + Decimal(v), "W" + Decimal(w), '-');
      YearTextInjective(y, z);
      assert ("W" + Decimal(v))[1..] == Decimal(v) && ("W" + Decimal(w))[1..] == Decimal(w);
      DecimalInjective(v, w);
    }
  }

  lemma FourthOfJanuary(year: int)
    ensures DayOf(Civil(year, 1, 4)) == YearStart(year) + 3
  {
    hide YearStart;
  }

  // ISO 8601 section 4.1.4: week 1 is the week that holds 4 January, and the
  // retention key counts whole weeks from there.
  lemma WeekKeyIsIsoWeek(n: int)
    ensures WeekKey(n).1 >= 1
    ensures WeekStart(n) == WeekStart(DayOf(Civil(WeekKey(n).0, 1, 4))) + 7 * (WeekKey(n).1 - 1)
    ensures YearStart(WeekKey(n).0) <= WeekStart(n) + 3 < YearStart(WeekKey(n).0 + 1)
  {
    hide YearOf, YearStart, DayOf, WeekStart, DayOfWeek;
    var first := YearStart(WeekKey(n).0);
    FourthOfJanuary(WeekKey(n).0);
    WeekThursday(n);
    var (thursday, firstThursday) := (WeekStart(n) + 3, WeekStart(first + 3) + 3);
    SameWeekday(WeekStart(n), WeekStart(first + 3));
    assert first <= firstThursday < first + 7;
  }
}
