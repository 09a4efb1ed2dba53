/** Fixed-width hexadecimal numbers and decimal numbers as the C library prints and reads them. */
module Numerals {

  const WORD := 0x1_0000_0000

  // ----- hexadecimal words -----

  function Power(n: nat): (r: nat)
    ensures r > 0
  {
    if n == 0 then 1 else 16 * Power(n - 1)
  }

  lemma PowerFitsWord(n: nat)
    ensures Power(8) == WORD && (n <= 8 ==> Power(n) <= WORD)
  {
    assert Power(8) == 16 * Power(7) && Power(7) == 16 * Power(6) && Power(6) == 16 * Power(5) && Power(5) == 16 * Power(4);
    assert Power(4) == 16 * Power(3) && Power(3) == 16 * Power(2) && Power(2) == 16 * Power(1) && Power(1) == 16 * Power(0);
  }

  predicate IsHex(c: char) { '0' <= c <= '9' || 'A' <= c <= 'F' || 'a' <= c <= 'f' }

  function Digit(c: char): (d: nat)
    requires IsHex(c)
    ensures d < 16
  {
    if '0' <= c <= '9' then c as int - '0' as int
    else if 'A' <= c <= 'F' then c as int - 'A' as int + 10
    else c as int - 'a' as int + 10
  }

  function DigitChar(d: nat): (c: char)
    requires d < 16
    ensures IsHex(c) && Digit(c) == d && !('a' <= c <= 'f')
  {
    if d < 10 then '0' + d as char else 'A' + (d - 10) as char
  }

  predicate AllHex(s: string) {
    forall i :: 0 <= i < |s| ==> IsHex(s[i])
  }

  function Value(s: string): (v: nat)
    requires AllHex(s)
  {
    if s == "" then 0 else Value(s[..|s| - 1]) * 16 + Digit(s[|s| - 1])
  }

  lemma {:induction false} ValueBound(s: string)
    requires AllHex(s)
    ensures Value(s) < Power(|s|)
  {
    if s != "" {
      ValueBound(s[..|s| - 1]);
    }
  }

  lemma FitsWord(a: nat, b: nat)
    requires a + b < WORD
    ensures (a + b) % WORD == a + b == a % WORD + b
  {
  }

  lemma ValueNext(done: string, c: char)
    requires AllHex(done) && IsHex(c)
    ensures AllHex(done + [c]) && Value(done + [c]) == Value(done) * 16 + Digit(c)
  {
    assert (done + [c])[..|done|] == done;
  }

  lemma RoomForDigit(v: nat, n: nat)
    requires v < Power(n) && n < 8
    ensures v * 16 + 16 <= WORD
  {
    PowerFitsWord(n + 1);
  }

  /** One more digit, without leaving 32 bits. */
  lemma ValueSnoc(done: string, c: char)
    requires AllHex(done) && IsHex(c) && |done| < 8
    ensures AllHex(done + [c]) && Value(done + [c]) == (Value(done) * 16 + Digit(c)) % WORD
    ensures Value(done + [c]) == Value(done) * 16 % WORD + Digit(c)
  {
    ValueNext(done, c);
    ValueBound(done);
    RoomForDigit(Value(done), |done|);
    FitsWord(Value(done) * 16, Digit(c));
  }

  /** A number in n hexadecimal digits, as printed by "%0nX". */
  function Hex(v: nat, n: nat): (s: string)
    ensures |s| == n && AllHex(s)
  {
    if n == 0 then "" else Hex(v / 16, n - 1) + [DigitChar(v % 16)]
  }

  lemma {:induction false} HexRoundTrip(v: nat, n: nat)
    requires v < Power(n)
    ensures Value(Hex(v, n)) == v
  {
    if n > 0 {
      HexRoundTrip(v / 16, n - 1);
      var s := Hex(v, n);
      assert s[..|s| - 1] == Hex(v / 16, n - 1);
    }
  }

  /** Digits in capitals are what the printer makes of their value. */
  lemma {:induction false} ValueRoundTrip(s: string)
    requires AllHex(s) && forall i :: 0 <= i < |s| ==> !('a' <= s[i] <= 'f')
    ensures Hex(Value(s), |s|) == s
  {
    if s != "" {
      ValueRoundTrip(s[..|s| - 1]);
      assert Value(s) / 16 == Value(s[..|s| - 1]) && Value(s) % 16 == Digit(s[|s| - 1]);
      assert DigitChar(Digit(s[|s| - 1])) == s[|s| - 1];
      assert s == s[..|s| - 1] + [s[|s| - 1]];
    }
  }

  // ----- decimal -----

  predicate IsDecimal(c: char) { '0' <= c <= '9' }

  /** The digits of a number, as printed by "%d". */
  function Decimal(n: nat): (s: string)
    ensures s != "" && forall i :: 0 <= i < |s| ==> IsDecimal(s[i])
  {
    if n < 10 then ['0' + n as char] else Decimal(n / 10) + ['0' + (n % 10) as char]
  }

  function Signed(n: int): string {
    if n < 0 then "-" + Decimal(-n) else Decimal(n)
  }

  /** The number that the digits at the front of a text make. */
  function Leading(s: string, sofar: nat): nat {
    if s == "" || !IsDecimal(s[0]) then sofar else Leading(s[1..], sofar * 10 + (s[0] as int - '0' as int))
  }

  predicate IsSpace(c: char) { c == ' ' || '\t' <= c <= '\r' }

  /** The value of a text for atoi: white space, a sign, digits, and whatever follows ignored. */
  function Atoi(s: string): int {
    if s != "" && IsSpace(s[0]) then Atoi(s[1..])
    else if s != "" && s[0] == '-' then
      var n: int := Leading(s[1..], 0);
      -n
    else if s != "" && s[0] == '+' then Leading(s[1..], 0)
    else Leading(s, 0)
  }

  lemma {:induction false} LeadingOf(n: nat, rest: string, sofar: nat, scale: nat)
    requires rest == "" || !IsDecimal(rest[0])
    requires scale == Scale(n)
    ensures Leading(Decimal(n) + rest, sofar) == sofar * scale + n
    decreases n
  {
    if n < 10 {
      assert (Decimal(n) + rest)[1..] == rest;
      assert sofar * scale == sofar * 10;
    } else {
      var c := '0' + (n % 10) as char;
      assert Decimal(n) + rest == Decimal(n / 10) + ([c] + rest);
      LeadingSplit(Decimal(n / 10), [c] + rest, sofar);
      LeadingOf(n / 10, "", sofar, Scale(n / 10));
      assert Decimal(n / 10) + "" == Decimal(n / 10);
      var q := sofar * Scale(n / 10) + n / 10;
      assert ([c] + rest)[1..] == rest;
      assert Leading([c] + rest, q) == q * 10 + n % 10;
      Regroup(sofar, Scale(n / 10), n);
    }
  }

  lemma Regroup(sofar: nat, scale: nat, n: nat)
    ensures (sofar * scale + n / 10) * 10 + n % 10 == sofar * (scale * 10) + n
  {
    assert sofar * (scale * 10) == sofar * scale * 10;
  }

  function Scale(n: nat): nat {
    if n < 10 then 10 else Scale(n / 10) * 10
  }

  lemma {:induction false} LeadingSplit(s: string, rest: string, sofar: nat)
    requires forall i :: 0 <= i < |s| ==> IsDecimal(s[i])
    ensures Leading(s + rest, sofar) == Leading(rest, Leading(s, sofar))
    decreases |s|
  {
    if s == "" {
      assert s + rest == rest;
    } else {
      assert (s + rest)[1..] == s[1..] + rest;
      LeadingSplit(s[1..], rest, sofar * 10 + (s[0] as int - '0' as int));
    }
  }

  lemma AtoiOfDigits(n: nat, rest: string)
    requires rest == "" || !IsDecimal(rest[0])
    ensures Leading(Decimal(n) + rest, 0) == n
    ensures Atoi(Decimal(n) + rest) == n
  {
    LeadingOf(n, rest, 0, Scale(n));
    assert IsDecimal(Decimal(n)[0]);
    assert (Decimal(n) + rest)[0] == Decimal(n)[0];
  }

  lemma AtoiMinus(s: string)
    ensures Atoi("-" + s) + Leading(s, 0) == 0
  {
    assert ("-" + s)[0] == '-' && ("-" + s)[1..] == s;
  }

  lemma MinusRoundTrip(n: int, rest: string, text: string)
    requires n < 0 && text == "-" + (Decimal(-n) + rest)
    requires rest == "" || !IsDecimal(rest[0])
    ensures Atoi(text) == n
  {
    AtoiOfDigits(-n, rest);
    AtoiMinus(Decimal(-n) + rest);
  }

  lemma MinusFirst(n: int, rest: string)
    requires n < 0
    ensures Signed(n) + rest == "-" + (Decimal(-n) + rest)
  {
  }

  /** What "%d" prints, atoi reads back, whatever other character follows. */
  lemma DecimalRoundTrip(n: int, rest: string)
    requires rest == "" || !IsDecimal(rest[0])
    ensures Atoi(Signed(n) + rest) == n
  {
    if n < 0 {
      MinusFirst(n, rest);
      MinusRoundTrip(n, rest, Signed(n) + rest);
    } else {
      AtoiOfDigits(n, rest);
    }
  }

  lemma {:induction false} DecimalStart(n: nat)
    ensures Decimal(n)[0] == '0' <==> n == 0
    decreases n
  {
    if n >= 10 {
      DecimalStart(n / 10);
    }
  }

  /** "%d" prints a sign for negative numbers only, and no zeros in front. */
  lemma SignedPlain(n: int)
    ensures Signed(n)[0] == '-' <==> n < 0
    ensures n >= 0 ==> (Signed(n)[0] == '0' <==> n == 0)
    ensures n < 0 ==> Signed(n)[1..] == Decimal(-n)
  {
    if n >= 0 { DecimalStart(n); }
  }

  /** The white space that atoi passes over: blank, and the controls from tab to carriage return. */
  lemma AtoiSkips(c: char, s: string)
    requires c as int in {32, 9, 10, 11, 12, 13}
    ensures Atoi([c] + s) == Atoi(s)
  {
    assert ([c] + s)[1..] == s;
  }
}
