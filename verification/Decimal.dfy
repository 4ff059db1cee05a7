/** Decimal text of 64-bit integers: how it is written, and how it is read without
    overflowing. */
module Decimal {
  import opened Wrappers
  import opened JsonValue

  newtype uint64 = x: int | 0 <= x < 0x1_0000_0000_0000_0000
  newtype int64 = x: int | -0x8000_0000_0000_0000 <= x < 0x8000_0000_0000_0000

  predicate IsDigit(c: char) {
    '0' <= c <= '9'
  }

  predicate AllDigits(s: string) {
    forall k :: 0 <= k < |s| ==> IsDigit(s[k])
  }

  function DigitChar(d: nat): char
    requires d < 10
  {
    '0' + d as char
  }

  function DigitValue(c: char): nat
    requires IsDigit(c)
  {
    (c - '0') as nat
  }

  /** The decimal digits of a number, without leading zeros. */
  function Digits(n: nat): string {
    if n < 10 then [DigitChar(n)] else Digits(n / 10) + [DigitChar(n % 10)]
  }

  /** The number a string of digits denotes; none at all denote zero. */
  function Number(s: string): nat
    requires AllDigits(s)
  {
    if s == [] then 0 else 10 * Number(s[..|s| - 1]) + DigitValue(s[|s| - 1])
  }

  lemma {:induction false} NumberOfDigits(n: nat)
    ensures |Digits(n)| > 0 && AllDigits(Digits(n)) && Number(Digits(n)) == n
  {
    if n >= 10 {
      NumberOfDigits(n / 10);
      assert Digits(n)[..|Digits(n)| - 1] == Digits(n / 10);
    }
  }

  function Power10(k: nat): nat {
    if k == 0 then 1 else 10 * Power10(k - 1)
  }

  lemma {:induction false} DigitsAreFew(n: nat, k: nat)
    requires k > 0 && n < Power10(k)
    ensures |Digits(n)| <= k
  {
    if n >= 10 {
      DigitsAreFew(n / 10, k - 1);
    }
  }

  function IntText(i: int): string {
    if i < 0 then "-" + Digits(-i) else Digits(i)
  }

  // ----- Writing -----

  const BUFFER_SIZE: nat := 3 * 8 + 1

  /** Writes the digits of a number backwards from a position, after a terminator, and
      touches no other byte. Twenty-one bytes always suffice. */
  method UIntToString(value: uint64, buffer: array<char>, current: nat) returns (at: nat)
    requires 21 <= current <= buffer.Length
    modifies buffer
    ensures current - 21 <= at < current - 1
    ensures buffer[at..current - 1] == Digits(value as nat) && buffer[current - 1] == '\0'
    ensures forall k :: 0 <= k < at || current <= k < buffer.Length ==> buffer[k] == old(buffer[k])
  {
    assert Power10(5) == 10_0000 && Power10(10) == 10_0000 * Power10(5);
    assert Power10(15) == 10_0000 * Power10(10) && Power10(20) == 10_0000 * Power10(15);
    DigitsAreFew(value as nat, 20);
    at := current - 1;
    buffer[at] := '\0';
    var rest := value;
    while true
      invariant current - 21 < at < current
      invariant current - 1 - at + |Digits(rest as nat)| <= 20
      invariant Digits(rest as nat) + buffer[at..current - 1] == Digits(value as nat)
      invariant buffer[current - 1] == '\0'
      invariant forall k :: 0 <= k < at || current <= k < buffer.Length ==> buffer[k] == old(buffer[k])
      decreases rest
    {
      ghost var tail := buffer[at..current - 1];
      at := at - 1;
      buffer[at] := DigitChar((rest % 10) as nat);
      assert buffer[at..current - 1] == [DigitChar((rest % 10) as nat)] + tail;
      rest := rest / 10;
      if rest == 0 {
        break;
      }
    }
  }

  /** The text from a position up to the terminator. */
  function CString(buffer: seq<char>, at: nat): string
    decreases |buffer| - at
  {
    if at >= |buffer| || buffer[at] == '\0' then [] else [buffer[at]] + CString(buffer, at + 1)
  }

  lemma {:induction false} CStringIs(buffer: seq<char>, at: nat, text: string)
    requires at + |text| < |buffer| && buffer[at..at + |text|] == text && buffer[at + |text|] == '\0'
    requires forall k :: 0 <= k < |text| ==> text[k] != '\0'
    ensures CString(buffer, at) == text
    decreases |text|
  {
    if text != [] {
      assert buffer[at..at + |text|][0] == text[0];
      assert buffer[at + 1..at + 1 + |text[1..]|] == buffer[at..at + |text|][1..];
      CStringIs(buffer, at + 1, text[1..]);
    }
  }

  /** Puts a minus sign before the digits of a number. */
  method MinusToString(magnitude: uint64, buffer: array<char>, end: nat) returns (at: nat)
    requires 22 <= end <= buffer.Length
    modifies buffer
    ensures at < end - 1 && buffer[at..end - 1] == "-" + Digits(magnitude as nat) && buffer[end - 1] == '\0'
  {
    at := UIntToString(magnitude, buffer, end);
    ghost var digits := buffer[at..end - 1];
    at := at - 1;
    buffer[at] := '-';
    assert buffer[at..end - 1] == ['-'] + digits;
  }

  /** `valueToString` of a signed integer. */
  method IntToString(value: int64) returns (text: string)
    ensures text == IntText(value as int)
  {
    hide Digits, CString;
    var buffer := new char[BUFFER_SIZE];
    var current: nat := BUFFER_SIZE;
    if value == -0x8000_0000_0000_0000 {
      current := MinusToString(0x7FFF_FFFF_FFFF_FFFF + 1, buffer, current);
    } else if value < 0 {
      current := MinusToString((-value) as uint64, buffer, current);
    } else {
      current := UIntToString(value as uint64, buffer, current);
    }
    text := CString(buffer[..], current);
    NumberOfDigits(if value < 0 then -(value as int) else value as int);
    CStringIs(buffer[..], current, IntText(value as int));
  }

  /** `valueToString` of an unsigned integer. */
  method UIntToText(value: uint64) returns (text: string)
    ensures text == Digits(value as nat)
  {
    hide Digits, CString;
    var buffer := new char[BUFFER_SIZE];
    var current := UIntToString(value, buffer, BUFFER_SIZE);
    text := CString(buffer[..], current);
    NumberOfDigits(value as nat);
    CStringIs(buffer[..], current, Digits(value as nat));
  }

  // ----- Reading -----

  /** The integer a number token denotes, when it is an optional minus sign and digits
      whose value fits 64 bits: unsigned, or signed after a minus. */
  function DecodeInteger(t: string): Option<int> {
    var negative := t != [] && t[0] == '-';
    var digits := if negative then t[1..] else t;
    if !AllDigits(digits) then None
    else if Number(digits) > (if negative then -MIN_INT64 else MAX_UINT64) then None
    else Some((if negative then -1 else 1) * Number(digits))
  }

  /** How the reader stores an integer. */
  function Canonical(i: int): Payload
    requires MIN_INT64 <= i <= MAX_UINT64
  {
    if i <= MAX_INT then Int(i) else UInt(i)
  }

  lemma NumberGrows(s: string, i: nat, j: nat)
    requires i <= j <= |s| && AllDigits(s)
    ensures Number(s[..i]) <= Number(s[..j])
    decreases j - i
  {
    if i < j {
      NumberGrows(s, i, j - 1);
      assert s[..j][..j - 1] == s[..j - 1];
    }
  }

  lemma NumberGrowsTenfold(s: string, i: nat)
    requires i + 1 < |s| && AllDigits(s)
    ensures Number(s) >= 100 * Number(s[..i])
  {
    assert s[..i + 1][..i] == s[..i];
    assert s[..i + 2][..i + 1] == s[..i + 1];
    NumberGrows(s, i + 2, |s|);
    assert s[..|s|] == s;
  }

  lemma BeyondMax(value: nat, digit: nat, max: nat)
    requires max >= 10 && value >= max / 10
    ensures 100 * value > max
    ensures value > max / 10 || digit > max % 10 ==> 10 * value + digit > max
  {
    var tenth, rest := max / 10, max % 10;
    assert max == 10 * tenth + rest;
  }

  /** Why the reader may give up: the digit it has reached takes the number beyond the
      largest one. */
  lemma TooLarge(digits: string, k: nat, max: nat)
    requires k < |digits| && AllDigits(digits[..k + 1])
    requires max >= 10 && Number(digits[..k]) >= max / 10
    requires Number(digits[..k]) > max / 10 || k + 1 != |digits| || DigitValue(digits[k]) > max % 10
    ensures AllDigits(digits) ==> Number(digits) > max
  {
    if AllDigits(digits) {
      hide Number;
      NextDigit(digits, k);
      BeyondMax(Number(digits[..k]), DigitValue(digits[k]), max);
      NumberGrows(digits, k + 1, |digits|);
      assert digits[..|digits|] == digits;
      if k + 1 != |digits| {
        NumberGrowsTenfold(digits, k);
      }
    }
  }

  lemma NextDigit(digits: string, k: nat)
    requires k < |digits| && AllDigits(digits[..k]) && IsDigit(digits[k])
    ensures AllDigits(digits[..k + 1]) && Number(digits[..k + 1]) == 10 * Number(digits[..k]) + DigitValue(digits[k])
  {
    assert digits[..k + 1][..k] == digits[..k];
  }

  /** Reads an integer digit by digit in 64-bit arithmetic, giving up, without ever
      overflowing, exactly when the token is not one or does not fit. */
  method ReadInteger(t: string) returns (r: Option<Payload>)
    ensures r.Some? <==> DecodeInteger(t).Some?
    ensures r.Some? ==> r.value == Canonical(DecodeInteger(t).value)
  {
    var current := 0;
    var isNegative := t != [] && t[0] == '-';
    if isNegative {
      current := 1;
    }
    ghost var first, digits := current, t[current..];
    var maxIntegerValue: uint64 := if isNegative then 0x7FFF_FFFF_FFFF_FFFF + 1 else 0xFFFF_FFFF_FFFF_FFFF;
    var threshold := maxIntegerValue / 10;
    var value: uint64 := 0;
    while current < |t|
      invariant first <= current <= |t|
      invariant AllDigits(digits[..current - first])
      invariant value as nat == Number(digits[..current - first]) <= maxIntegerValue as nat
    {
      hide Number;
      ghost var k := current - first;
      var c := t[current];
      current := current + 1;
      assert c == digits[k];
      if !IsDigit(c) {
        assert !AllDigits(digits);
        return None;
      }
      NextDigit(digits, k);
      var digit := DigitValue(c) as uint64;
      if value >= threshold {
        if value > threshold || current != |t| || digit > maxIntegerValue % 10 {
          TooLarge(digits, k, maxIntegerValue as nat);
          return None;
        }
      }
      value := value * 10 + digit;
    }
    assert digits[..|digits|] == digits;
    if isNegative && value == maxIntegerValue {
      r := Some(Int(MIN_INT64));
    } else if isNegative {
      r := Some(Int(-(value as int64) as int));
    } else if value <= 0x7FFF_FFFF {
      r := Some(Int(value as int));
    } else {
      r := Some(UInt(value as nat));
    }
  }

  /** Writing then reading is the numeric identity on all 64-bit integers. */
  lemma IntegerRoundTrip(i: int)
    requires MIN_INT64 <= i <= MAX_UINT64
    ensures DecodeInteger(IntText(i)) == Some(i)
  {
    if i < 0 {
      NumberOfDigits(-i);
      assert IntText(i)[1..] == Digits(-i);
    } else {
      NumberOfDigits(i);
      assert IsDigit(Digits(i)[0]);
    }
  }
}
