// Strings as the collector builds them: decimal numbers, zero-padded fields,
// separators, and JavaScript's `<` on strings.
module Text {

  function Digit(n: nat): char
    requires n < 10
  {
    '0' + n as char
  }

  predicate IsDigit(c: char) {
    '0' <= c <= '9'
  }

  predicate AllDigits(s: string) {
    forall i | 0 <= i < |s| :: IsDigit(s[i])
  }

  // String(n) for a non-negative integer.
  function Decimal(n: nat): (s: string)
    ensures |s| >= 1 && AllDigits(s)
  {
    if n < 10 then [Digit(n)] else Decimal(n / 10) + [Digit(n % 10)]
  }

  // Number(s) on a string of digits.
  function Value(s: string): nat
    requires AllDigits(s)
  {
    if s == [] then 0 else 10 * Value(s[..|s| - 1]) + (s[|s| - 1] as int - '0' as int)
  }

  lemma {:induction false} ValueOfDecimal(n: nat)
    ensures Value(Decimal(n)) == n
  {
    if n >= 10 {
      ValueOfDecimal(n / 10);
      assert Decimal(n)[..|Decimal(n)| - 1] == Decimal(n / 10);
    } else {
      assert Decimal(n)[..0] == [];
    }
  }

  lemma DecimalInjective(m: nat, n: nat)
    requires Decimal(m) == Decimal(n)
    ensures m == n
  {
    ValueOfDecimal(m);
    ValueOfDecimal(n);
  }

  // A number in a field of two or four digits, zero-padded.
  function Pad2(n: nat): (s: string)
    requires n < 100
    ensures |s| == 2 && AllDigits(s)
  {
    [Digit(n / 10), Digit(n % 10)]
  }

  function Pad4(n: nat): (s: string)
    requires n < 10000
    ensures |s| == 4 && AllDigits(s)
  {
    Pad2(n / 100) + Pad2(n % 100)
  }

  lemma ValueOfPad2(n: nat)
    requires n < 100
    ensures Value(Pad2(n)) == n
  {
    var s := Pad2(n);
    assert s[..1][..0] == [];
    assert Value(s[..1]) == n / 10;
  }

  lemma ValueOfPad4(n: nat)
    requires n < 10000
    ensures Value(Pad4(n)) == n
  {
    var s := Pad4(n);
    ValueOfPad2(n / 100);
    assert s[..3][..2] == Pad2(n / 100);
    assert Value(s[..3]) == 10 * (n / 100) + n % 100 / 10;
  }

  lemma Pad2OfValue(s: string)
    requires |s| == 2 && AllDigits(s)
    ensures Value(s) < 100 && Pad2(Value(s)) == s
  {
    assert s[..1][..0] == [] && Value(s[..1]) == s[0] as int - '0' as int;
    assert IsDigit(s[0]) && IsDigit(s[1]);
  }

  lemma ValueOfFour(s: string)
    requires |s| == 4 && AllDigits(s)
    ensures Value(s) == 100 * Value(s[..2]) + Value(s[2..])
  {
    var t := s[2..];
    assert t[..1][..0] == [] && t[..1] == [s[2]] && t[1] == s[3];
    assert Value(t[..1]) == s[2] as int - '0' as int;
    assert s[..3][..2] == s[..2] && s[..3][2] == s[2];
    assert Value(s[..3]) == 10 * Value(s[..2]) + (s[2] as int - '0' as int);
  }

  lemma Hundreds(a: nat, b: nat)
    requires a < 100 && b < 100
    ensures (100 * a + b) / 100 == a && (100 * a + b) % 100 == b
  {
  }

  lemma Pad4OfValue(s: string)
    requires |s| == 4 && AllDigits(s)
    ensures Value(s) < 10000 && Pad4(Value(s)) == s
  {
    hide Value, Pad2;
    var (high, low) := (s[..2], s[2..]);
    assert AllDigits(high) && AllDigits(low);
    Pad2OfValue(high);
    Pad2OfValue(low);
    ValueOfFour(s);
    Hundreds(Value(high), Value(low));
    assert s == high + low;
  }

  lemma Pad2Injective(m: nat, n: nat)
    requires m < 100 && n < 100 && Pad2(m) == Pad2(n)
    ensures m == n
  {
    ValueOfPad2(m);
    ValueOfPad2(n);
  }

  lemma Pad4Injective(m: nat, n: nat)
    requires m < 10000 && n < 10000 && Pad4(m) == Pad4(n)
    ensures m == n
  {
    ValueOfPad4(m);
    ValueOfPad4(n);
  }

  // JavaScript's a < b on strings, code unit by code unit.
  predicate Less(a: string, b: string) {
    if b == [] then false
    else if a == [] then true
    else a[0] < b[0] || (a[0] == b[0] && Less(a[1..], b[1..]))
  }

  // Fields of equal width compare one field at a time.
  lemma {:induction false} LessOnFields(a: string, b: string, x: string, y: string)
    requires |a| == |b|
    ensures Less(a + x, b + y) <==> Less(a, b) || (a == b && Less(x, y))
  {
    if a == [] {
      assert a + x == x && b + y == y;
    } else {
      LessOnFields(a[1..], b[1..], x, y);
      assert (a + x)[1..] == a[1..] + x && (b + y)[1..] == b[1..] + y;
      assert a == [a[0]] + a[1..] && b == [b[0]] + b[1..];
    }
  }

  lemma LessOnPad2(m: nat, n: nat)
    requires m < 100 && n < 100
    ensures Less(Pad2(m), Pad2(n)) <==> m < n
  {
    var a, b := Pad2(m), Pad2(n);
    assert a[1..][1..] == [] && b[1..][1..] == [];
    assert Less(a[1..], b[1..]) <==> Digit(m % 10) < Digit(n % 10);
  }

  lemma LessOnPad4(m: nat, n: nat)
    requires m < 10000 && n < 10000
    ensures Less(Pad4(m), Pad4(n)) <==> m < n
  {
    LessOnFields(Pad2(m / 100), Pad2(n / 100), Pad2(m % 100), Pad2(n % 100));
    LessOnPad2(m / 100, n / 100);
    LessOnPad2(m % 100, n % 100);
    if Pad2(m / 100) == Pad2(n / 100) {
      Pad2Injective(m / 100, n / 100);
    }
  }

  // The text before the first separator, and the text after the last one, can
  // be read back whatever the rest contains.
  lemma CutAtFirst(a: string, b: string, x: string, y: string, c: char)
    requires c !in a && c !in b && a + [c] + x == b + [c] + y
    ensures a == b && x == y
  {
    var s := a + [c] + x;
    assert s[|a|] == c && s[|b|] == c;
    assert s[..|a|] == a && s[..|b|] == b;
    assert forall i | 0 <= i < |a| :: s[i] == a[i];
    assert forall i | 0 <= i < |b| :: s[i] == b[i];
    assert |a| == |b|;
    assert x == s[|a| + 1..] && y == s[|b| + 1..];
  }

  lemma CutAtLast(a: string, b: string, x: string, y: string, c: char)
    requires c !in x && c !in y && a + [c] + x == b + [c] + y
    ensures a == b && x == y
  {
    var s := a + [c] + x;
    assert s[|a|] == c && s[|b|] == c;
    assert s[|a| + 1..] == x && s[|b| + 1..] == y;
    assert forall i | |a| < i < |s| :: s[i] == x[i - |a| - 1];
    assert forall i | |b| < i < |s| :: s[i] == y[i - |b| - 1];
    assert |a| == |b|;
    assert a == s[..|a|] && b == s[..|b|];
  }
}
