/** Event identifiers: decimal texts of 64-bit integers, optionally behind a two-letter network code. */
module Identifiers {

  const LIMIT: int := 0x8000_0000_0000_0000

  type Int64 = n: int | -LIMIT <= n < LIMIT

  datatype Conversion = Identifier(value: int) | Invalid

  // ---------------------------------------------------------------- std::to_string

  function Digit(d: nat): char
    requires d < 10
  {
    '0' + d as char
  }

  function Decimal(n: nat): (text: string)
    ensures |text| >= 1
    decreases n
  {
    if n < 10 then [Digit(n)] else Decimal(n / 10) + [Digit(n % 10)]
  }

  function Magnitude(n: int): nat {
    if n < 0 then -n else n
  }

  /** The key under which the cache holds an event. */
  function ToString(n: int): string {
    if n < 0 then "-" + Decimal(Magnitude(n)) else Decimal(n)
  }

  // ---------------------------------------------------------------- std::stol

  datatype Parse = Number(value: int) | NoNumber | OutOfRange

  predicate IsDigit(c: char) { '0' <= c <= '9' }

  predicate IsSpace(c: char) { c in {' ', '\t', '\n', '\r', 11 as char, 12 as char} }

  function SkipSpaces(s: string): (rest: string)
    ensures |rest| <= |s|
  {
    if s != [] && IsSpace(s[0]) then SkipSpaces(s[1..]) else s
  }

  /** The value of the leading digits, read on from `read`. */
  function ReadDigits(s: string, read: nat): (value: nat)
    ensures value >= read
  {
    if s != [] && IsDigit(s[0]) then ReadDigits(s[1..], 10 * read + (s[0] - '0') as int) else read
  }

  function Stol(s: string): Parse {
    var t := SkipSpaces(s);
    var signed := t != [] && (t[0] == '-' || t[0] == '+');
    var digits := if signed then t[1..] else t;
    if digits == [] || !IsDigit(digits[0]) then NoNumber
    else
      var magnitude: int := ReadDigits(digits, 0);
      var value: int := if signed && t[0] == '-' then -magnitude else magnitude;
      if -LIMIT <= value < LIMIT then Number(value) else OutOfRange
  }

  // ---------------------------------------------------------------- convertEventIdentifier

  function DropNetwork(s: string): string {
    if |s| > 2 then s[2..] else s
  }

  function Convert(s: string): Conversion {
    if s == "" then Invalid
    else
      var first := Stol(s);
      var parsed := if first.Number? then first else Stol(DropNetwork(s));
      if parsed.Number? && parsed.value >= 0 then Identifier(parsed.value) else Invalid
  }

  // ---------------------------------------------------------------- round trips

  ghost predicate AllDigits(s: string) {
    forall i :: 0 <= i < |s| ==> IsDigit(s[i])
  }

  lemma {:induction false} DecimalIsDigits(n: nat)
    ensures AllDigits(Decimal(n))
    decreases n
  {
    if n >= 10 {
      DecimalIsDigits(n / 10);
    }
  }

  lemma {:induction false} ReadAppend(s: string, c: char, read: nat)
    requires AllDigits(s) && IsDigit(c)
    ensures ReadDigits(s + [c], read) == 10 * ReadDigits(s, read) + (c - '0') as int
  {
    if s == [] {
      assert s + [c] == [c];
      assert ReadDigits([c][1..], 10 * read + (c - '0') as int) == 10 * read + (c - '0') as int;
    } else {
      assert (s + [c])[1..] == s[1..] + [c];
      ReadAppend(s[1..], c, 10 * read + (s[0] - '0') as int);
    }
  }

  lemma {:induction false} ReadDecimal(n: nat)
    ensures ReadDigits(Decimal(n), 0) == n
    decreases n
  {
    if n < 10 {
      assert Decimal(n)[1..] == [];
    } else {
      ReadDecimal(n / 10);
      DecimalIsDigits(n / 10);
      ReadAppend(Decimal(n / 10), Digit(n % 10), 0);
    }
  }

  /** Reading back what `std::to_string` writes, for every 64-bit integer. */
  lemma StolOfToString(n: Int64)
    ensures Stol(ToString(n)) == Number(n)
  {
    var magnitude := Magnitude(n);
    ReadDecimal(magnitude);
    DecimalIsDigits(magnitude);
    assert IsDigit(Decimal(magnitude)[0]);
    if n < 0 {
      assert ToString(n)[1..] == Decimal(magnitude);
    }
  }

  /** A decimal text: digits, of which the first is no zero unless it is the only one. */
  ghost predicate PlainDecimal(text: string) {
    text != [] && AllDigits(text) && (|text| > 1 ==> text[0] != '0')
  }

  lemma {:induction false} DecimalIsPlain(n: nat)
    ensures PlainDecimal(Decimal(n))
    ensures n > 0 ==> Decimal(n)[0] != '0'
    decreases n
  {
    DecimalIsDigits(n);
    if n >= 10 {
      DecimalIsPlain(n / 10);
    }
  }

  /** The text of an identifier: a plain decimal, behind a minus sign exactly when it is negative. */
  lemma TextShape(n: int)
    ensures n >= 0 ==> PlainDecimal(ToString(n))
    ensures n < 0 ==> |ToString(n)| > 1 && ToString(n)[0] == '-' && PlainDecimal(ToString(n)[1..]) && ToString(n)[1] != '0'
  {
    DecimalIsPlain(Magnitude(n));
    if n < 0 {
      assert ToString(n)[1..] == Decimal(Magnitude(n));
    }
  }

  /** Different identifiers have different keys. */
  lemma KeysDiffer(n: Int64, m: Int64)
    requires ToString(n) == ToString(m)
    ensures n == m
  {
    StolOfToString(n);
    StolOfToString(m);
  }

  /** A cache key addresses the event it was made from, exactly when the identifier is not negative. */
  lemma KeyConversion(n: Int64)
    ensures Convert(ToString(n)) == if n >= 0 then Identifier(n) else Invalid
  {
    StolOfToString(n);
  }

  predicate IsLetter(c: char) { 'a' <= c <= 'z' || 'A' <= c <= 'Z' }

  /** A two-letter network code in front changes nothing. */
  lemma NetworkCodeIgnored(a: char, b: char, n: Int64)
    requires IsLetter(a) && IsLetter(b) && n >= 0
    ensures Convert([a, b] + Decimal(n)) == Identifier(n)
  {
    var s := [a, b] + Decimal(n);
    StolOfToString(n);
    assert DropNetwork(s) == Decimal(n);
    assert Stol(s) == NoNumber;
  }

  lemma {:induction false} DigitsStop(s: string, rest: string, read: nat)
    requires AllDigits(s) && (rest == [] || !IsDigit(rest[0]))
    ensures ReadDigits(s + rest, read) == ReadDigits(s, read)
  {
    if s == [] {
      assert s + rest == rest;
    } else {
      assert (s + rest)[1..] == s[1..] + rest;
      DigitsStop(s[1..], rest, 10 * read + (s[0] - '0') as int);
    }
  }

  /** What follows the number, from the first character that is no digit, is ignored. */
  lemma TrailingTextIgnored(n: Int64, rest: string)
    requires n >= 0 && (rest == [] || !IsDigit(rest[0]))
    ensures Convert(Decimal(n) + rest) == Identifier(n)
  {
    var text := Decimal(n);
    DecimalIsDigits(n);
    ReadDecimal(n);
    DigitsStop(text, rest, 0);
    assert IsDigit(text[0]) && (text + rest)[0] == text[0];
    assert Stol(text + rest) == Number(n);
  }

  /**
   * A number beyond 64 bits is not refused: its first two digits are taken for a network code.
   * So a decimal text converts to its own value exactly when the value fits.
   */
  lemma LongNumberLosesTwoDigits(s: string)
    requires AllDigits(s) && |s| > 2 && ReadDigits(s, 0) >= LIMIT
    ensures Convert(s) == if ReadDigits(s[2..], 0) < LIMIT then Identifier(ReadDigits(s[2..], 0)) else Invalid
  {
    assert Stol(s) == OutOfRange;
    var t := s[2..];
    assert IsDigit(t[0]);
    assert SkipSpaces(t) == t;
  }

  /** Behind a sign, the sign and one digit are taken for it, so a large negative number may come out positive. */
  lemma SignedLongNumberLosesSignAndDigit(sign: char, digits: string)
    requires (sign == '-' || sign == '+') && AllDigits(digits) && |digits| > 1 && Stol([sign] + digits) == OutOfRange
    ensures Convert([sign] + digits) ==
      if ReadDigits(digits[1..], 0) < LIMIT then Identifier(ReadDigits(digits[1..], 0)) else Invalid
  {
    var t := digits[1..];
    assert DropNetwork([sign] + digits) == t;
    assert IsDigit(t[0]);
    assert SkipSpaces(t) == t;
  }

  lemma ConversionIsExactIffItFits(n: nat)
    ensures Convert(Decimal(n)) == Identifier(n) <==> n < LIMIT
  {
    if n < LIMIT {
      KeyConversion(n);
    }
  }

  lemma {:induction false} ReadNines(s: string, read: nat)
    requires forall i :: 0 <= i < |s| ==> s[i] == '9'
    ensures ReadDigits(s, read) == (read + 1) * Pow10(|s|) - 1
  {
    if s != [] {
      ReadNines(s[1..], 10 * read + 9);
      var p := Pow10(|s| - 1);
      assert (10 * read + 10) * p == (read + 1) * (10 * p);
    }
  }

  function Pow10(k: nat): nat {
    if k == 0 then 1 else 10 * Pow10(k - 1)
  }

  lemma Pow10Values()
    ensures Pow10(18) == 1_000_000_000_000_000_000
    ensures Pow10(20) == 100_000_000_000_000_000_000
  {
    assert Pow10(6) == 1_000_000;
    assert Pow10(12) == 1_000_000_000_000;
  }

  /** For instance, the text of twenty nines is taken for the event of eighteen nines. */
  lemma LongNumberExample(s: string)
    requires |s| == 20 && forall i :: 0 <= i < |s| ==> s[i] == '9'
    ensures Convert(s) == Identifier(999_999_999_999_999_999)
    ensures ReadDigits(s, 0) == 99_999_999_999_999_999_999
  {
    Pow10Values();
    ReadNines(s, 0);
    ReadNines(s[2..], 0);
    LongNumberLosesTwoDigits(s);
  }
}
