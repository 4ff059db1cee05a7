/**
 Strings and numbers as section 6 and section 7 of RFC 8259 spell them, and that the
 reader takes each spelling for one token that means the same. A text in which a
 surrogate escape stands alone denotes no string.
 */
module JsonGrammar {
  import opened Wrappers
  import opened JsonValue
  import opened Decimal
  import opened Unicode
  import opened JsonScanner
  import opened JsonStrings

  // ----- Strings -----

  /** What a piece of string text denotes and where it ends. */
  datatype Spelled = Spelled(s: string, end: nat)

  /** Four hexadecimal digits. */
  function HexUnit(doc: string, pos: nat): (r: Option<nat>)
    ensures r.Some? ==> pos + 4 <= |doc| && Spells(doc[pos..pos + 4], r.value) && r.value < 0x10000
  {
    if pos + 4 <= |doc| && IsHex(doc[pos]) && IsHex(doc[pos + 1]) && IsHex(doc[pos + 2]) && IsHex(doc[pos + 3])
    then Some(4096 * HexValue(doc[pos]) + 256 * HexValue(doc[pos + 1]) + 16 * HexValue(doc[pos + 2]) + HexValue(doc[pos + 3]))
    else None
  }

  function IsEscapeAt(doc: string, pos: nat): bool {
    At(doc, pos) == '\\' && At(doc, pos + 1) == 'u'
  }

  /** A Unicode escape: a unit that is no surrogate, or a pair of surrogates. */
  function EscapedAt(doc: string, pos: nat): (r: Option<Spelled>)
    ensures r.Some? ==> pos < r.value.end <= |doc|
  {
    var unit := if IsEscapeAt(doc, pos) then HexUnit(doc, pos + 2) else None;
    if unit.None? || IsLowSurrogate(unit.value) then None
    else if !IsHighSurrogate(unit.value) then Some(Spelled(CodePointToUTF8(unit.value), pos + 6))
    else
      var low := if IsEscapeAt(doc, pos + 6) then HexUnit(doc, pos + 8) else None;
      if low.None? || !IsLowSurrogate(low.value) then None
      else Some(Spelled(CodePointToUTF8(0x10000 + (unit.value - 0xD800) * 0x400 + (low.value - 0xDC00)), pos + 12))
  }

  /** One character of a string: itself, unless it is a quote, a backslash or a control
      character, or an escape. */
  function CharacterAt(doc: string, pos: nat): (r: Option<Spelled>)
    ensures r.Some? ==> pos < r.value.end <= |doc|
  {
    if pos >= |doc| || doc[pos] < ' ' || doc[pos] == '"' then None
    else if doc[pos] != '\\' then Some(Spelled([doc[pos]], pos + 1))
    else if At(doc, pos + 1) == 'u' then EscapedAt(doc, pos)
    else
      var c := Unescape(At(doc, pos + 1));
      if c.Some? then Some(Spelled([c.value], pos + 2)) else None
  }

  /** The characters up to a closing quote, and the end after it. */
  function CharactersAt(doc: string, pos: nat): (r: Option<Spelled>)
    ensures r.Some? ==> pos < r.value.end <= |doc|
    decreases |doc| - pos
  {
    if At(doc, pos) == '"' then Some(Spelled("", pos + 1))
    else
      var first := CharacterAt(doc, pos);
      if first.None? then None
      else
        var rest := CharactersAt(doc, first.value.end);
        if rest.None? then None else Some(Spelled(first.value.s + rest.value.s, rest.value.end))
  }

  function StringAt(doc: string, pos: nat): (r: Option<Spelled>)
    ensures r.Some? ==> pos < r.value.end <= |doc|
  {
    if At(doc, pos) == '"' then CharactersAt(doc, pos + 1) else None
  }

  /** The escapes of the grammar are those of scalar values. */
  lemma EscapedIsScalar(doc: string, pos: nat) returns (cp: nat)
    requires EscapedAt(doc, pos).Some?
    ensures var e := EscapedAt(doc, pos).value;
            && e.s == CodePointToUTF8(cp) && IsScalar(cp) && e.end == (if cp < 0x10000 then pos + 6 else pos + 12)
            && EscapesScalar(doc[pos..e.end], cp)
  {
    hide Spells, CodePointToUTF8;
    var unit, h := HexUnit(doc, pos + 2).value, doc[pos + 2..pos + 6];
    if IsHighSurrogate(unit) {
      var low, l := HexUnit(doc, pos + 8).value, doc[pos + 8..pos + 12];
      cp := 0x10000 + (unit - 0xD800) * 0x400 + (low - 0xDC00);
      assert unit == HighUnit(cp) && low == LowUnit(cp);
      assert doc[pos..pos + 12] == "\\u" + h + "\\u" + l;
    } else {
      cp := unit;
      assert doc[pos..pos + 6] == "\\u" + h;
    }
  }

  /** The scan for the closing quote passes over four hexadecimal digits. */
  lemma ScansUnit(doc: string, pos: nat)
    requires IsEscapeAt(doc, pos) && HexUnit(doc, pos + 2).Some?
    ensures StringEnd(doc, pos) == StringEnd(doc, pos + 6)
  {
    assert StringEnd(doc, pos) == StringEnd(doc, pos + 2);
    assert StringEnd(doc, pos + 2) == StringEnd(doc, pos + 3);
    assert StringEnd(doc, pos + 3) == StringEnd(doc, pos + 4);
    assert StringEnd(doc, pos + 4) == StringEnd(doc, pos + 5);
  }

  lemma EscapeIsRead(doc: string, pos: nat, end: nat)
    requires EscapedAt(doc, pos).Some? && EscapedAt(doc, pos).value.end <= end <= |doc|
    ensures var e := EscapedAt(doc, pos).value;
            && DecodeString(doc, pos, end) == Prepend(e.s, DecodeString(doc, e.end, end))
            && StringEnd(doc, pos) == StringEnd(doc, e.end)
  {
    hide DecodeString, StringEnd, CodePointToUTF8, EscapesScalar;
    var e := EscapedAt(doc, pos).value;
    var cp := EscapedIsScalar(doc, pos);
    UnicodeEscapeDecodes(doc, pos, end, doc[pos..e.end], cp);
    ScansUnit(doc, pos);
    if cp >= 0x10000 {
      ScansUnit(doc, pos + 6);
    }
  }

  lemma CharacterIsRead(doc: string, pos: nat, end: nat)
    requires CharacterAt(doc, pos).Some? && CharacterAt(doc, pos).value.end <= end <= |doc|
    ensures var c := CharacterAt(doc, pos).value;
            && DecodeString(doc, pos, end) == Prepend(c.s, DecodeString(doc, c.end, end))
            && StringEnd(doc, pos) == StringEnd(doc, c.end)
  {
    hide EscapedAt, ReadCodePoint;
    if doc[pos] == '\\' && At(doc, pos + 1) == 'u' {
      EscapeIsRead(doc, pos, end);
    }
  }

  /** Every string of the grammar is read as what it denotes, up to its own quote. */
  lemma {:induction false} CharactersAreRead(doc: string, pos: nat)
    requires CharactersAt(doc, pos).Some?
    ensures var r := CharactersAt(doc, pos).value;
            StringEnd(doc, pos) == Scan(true, r.end) && DecodeString(doc, pos, r.end - 1) == Text(r.s)
    decreases |doc| - pos
  {
    hide CharacterAt, ReadCodePoint, CodePointToUTF8, Unescape;
    var r := CharactersAt(doc, pos).value;
    if At(doc, pos) != '"' {
      var first := CharacterAt(doc, pos).value;
      CharactersAreRead(doc, first.end);
      CharacterIsRead(doc, pos, r.end - 1);
    }
  }

  /** A string of the grammar is one token. */
  lemma StringIsToken(doc: string, pos: nat)
    requires StringAt(doc, pos).Some?
    ensures var r := StringAt(doc, pos).value;
            && TokenAt(doc, pos) == Token(StringToken, pos, r.end) && pos + 2 <= r.end
            && DecodeString(doc, pos + 1, r.end - 1) == Text(r.s)
  {
    hide StringEnd, DecodeString;
    CharactersAreRead(doc, pos + 1);
  }

  // ----- The writers' strings -----

  lemma UpperHexIsHex(d: nat)
    requires d < 16
    ensures IsHex(UpperHex(d)) && HexValue(UpperHex(d)) == d
  {
  }

  lemma AsciiIsItself(c: char)
    requires c < ' '
    ensures CodePointToUTF8(c as nat) == [c]
  {
  }

  lemma WrittenUnit(doc: string, pos: nat, c: char)
    requires c < ' ' && Letter(c).None? && IsAt(doc, pos, Escape(c))
    ensures EscapedAt(doc, pos) == Some(Spelled([c], pos + 6))
  {
    hide UpperHex, IsHex, HexValue, CodePointToUTF8, Letter, Spells;
    var e := Escape(c);
    UpperHexIsHex(0);
    UpperHexIsHex(c as nat / 16);
    UpperHexIsHex(c as nat % 16);
    ZeroDigit();
    AsciiIsItself(c);
    assert doc[pos] == e[0] && doc[pos + 1] == e[1] && doc[pos + 2] == e[2] && doc[pos + 3] == e[3] && doc[pos + 4] == e[4] && doc[pos + 5] == e[5];
    assert HexUnit(doc, pos + 2) == Some(c as nat);
  }

  lemma ZeroDigit()
    ensures UpperHex(0) == '0'
  {
  }

  lemma WrittenCharacter(doc: string, pos: nat, c: char)
    requires IsAt(doc, pos, Escape(c))
    ensures CharacterAt(doc, pos) == Some(Spelled([c], pos + |Escape(c)|))
  {
    hide EscapedAt;
    assert doc[pos] == Escape(c)[0];
    if Letter(c).Some? {
      assert doc[pos + 1] == Escape(c)[1];
      assert Unescape(Letter(c).value) == Some(c) && Letter(c).value != 'u';
    } else if c < ' ' {
      assert doc[pos + 1] == Escape(c)[1];
      WrittenUnit(doc, pos, c);
    }
  }

  /** No spelling of a character is shorter than the one the writers choose. */
  lemma EscapeIsShortest(c: char, spelling: string)
    requires CharacterAt(spelling, 0) == Some(Spelled([c], |spelling|))
    ensures |Escape(c)| <= |spelling|
  {
    hide EscapedAt;
    if |spelling| < 6 {
      NoShortEscape(spelling);
    }
  }

  lemma NoShortEscape(spelling: string)
    requires |spelling| < 6
    ensures EscapedAt(spelling, 0).None?
  {
  }

  lemma {:induction false} WrittenCharacters(doc: string, pos: nat, s: string)
    requires IsAt(doc, pos, EscapeAll(s) + "\"")
    ensures CharactersAt(doc, pos) == Some(Spelled(s, pos + |EscapeAll(s)| + 1))
    decreases |s|
  {
    hide Escape, CharacterAt;
    if s == [] {
      assert doc[pos] == (EscapeAll(s) + "\"")[0];
    } else {
      assert EscapeAll(s) + "\"" == Escape(s[0]) + (EscapeAll(s[1..]) + "\"");
      IsAtSplit(doc, pos, Escape(s[0]), EscapeAll(s[1..]) + "\"");
      WrittenCharacter(doc, pos, s[0]);
      WrittenCharacters(doc, pos + |Escape(s[0])|, s[1..]);
      assert s == [s[0]] + s[1..];
      NoQuoteAt(doc, pos, s[0]);
    }
  }

  lemma NoQuoteAt(doc: string, pos: nat, c: char)
    requires IsAt(doc, pos, Escape(c))
    ensures At(doc, pos) != '"'
  {
    assert doc[pos] == Escape(c)[0];
  }

  /** The writers spell strings by the grammar. */
  lemma WrittenString(doc: string, pos: nat, s: string)
    requires IsAt(doc, pos, Quote(s))
    ensures StringAt(doc, pos) == Some(Spelled(s, pos + |Quote(s)|))
  {
    hide EscapeAll, CharactersAt;
    assert Quote(s) == "\"" + (EscapeAll(s) + "\"");
    IsAtSplit(doc, pos, "\"", EscapeAll(s) + "\"");
    assert doc[pos] == "\""[0];
    WrittenCharacters(doc, pos + 1, s);
  }

  /** Whatever follows it, a quoted string is read as one token that ends at the
      writer's closing quote and decodes to the string. */
  lemma StringRoundTrip(doc: string, pos: nat, s: string)
    requires IsAt(doc, pos, Quote(s))
    ensures TokenAt(doc, pos) == Token(StringToken, pos, pos + |Quote(s)|)
    ensures DecodeString(doc, pos + 1, pos + |Quote(s)| - 1) == Text(s)
  {
    hide Quote, StringAt, TokenAt, DecodeString;
    WrittenString(doc, pos, s);
    StringIsToken(doc, pos);
  }

  // ----- Numbers -----

  /** A character that would go on with a number before it. */
  predicate ContinuesNumber(c: char) {
    IsDigit(c) || c == '.' || c == 'e' || c == 'E'
  }

  /** One digit or more. */
  function DigitsAt(doc: string, pos: nat): (r: Option<nat>)
    ensures r.Some? ==> pos < r.value <= |doc|
  {
    if pos < |doc| && IsDigit(doc[pos]) then Some(SkipDigits(doc, pos)) else None
  }

  /** An integer part has no leading zero. */
  function IntegerAt(doc: string, pos: nat): (r: Option<nat>)
    ensures r.Some? ==> pos < r.value <= |doc|
  {
    if At(doc, pos) == '0' then Some(pos + 1) else DigitsAt(doc, pos)
  }

  function FractionAt(doc: string, pos: nat): (r: Option<nat>)
    requires pos <= |doc|
    ensures r.Some? ==> pos <= r.value <= |doc|
  {
    if At(doc, pos) == '.' then DigitsAt(doc, pos + 1) else Some(pos)
  }

  function ExponentAt(doc: string, pos: nat): (r: Option<nat>)
    requires pos <= |doc|
    ensures r.Some? ==> pos <= r.value <= |doc|
  {
    if At(doc, pos) == 'e' || At(doc, pos) == 'E' then
      DigitsAt(doc, if At(doc, pos + 1) == '+' || At(doc, pos + 1) == '-' then pos + 2 else pos + 1)
    else Some(pos)
  }

  /** Where a number ends that nothing goes on with. */
  function NumberAt(doc: string, pos: nat): (r: Option<nat>)
    ensures r.Some? ==> pos < r.value <= |doc|
  {
    var whole := IntegerAt(doc, if At(doc, pos) == '-' then pos + 1 else pos);
    var fraction := if whole.Some? then FractionAt(doc, whole.value) else None;
    var end := if fraction.Some? then ExponentAt(doc, fraction.value) else None;
    if end.Some? && !ContinuesNumber(At(doc, end.value)) then end else None
  }

  /** A number of the grammar is one token. */
  lemma NumberIsToken(doc: string, pos: nat)
    requires NumberAt(doc, pos).Some?
    ensures TokenAt(doc, pos) == Token(NumberToken, pos, NumberAt(doc, pos).value)
  {
    hide SkipDigits, DigitsAt;
    var at := if At(doc, pos) == '-' then pos + 1 else pos;
    FirstDigits(doc, pos, at);
    DigitsAre(doc, IntegerAt(doc, at).value + 1);
    var fraction := FractionAt(doc, IntegerAt(doc, at).value).value;
    DigitsAre(doc, fraction + 1);
    DigitsAre(doc, fraction + 2);
  }

  lemma DigitsAre(doc: string, pos: nat)
    ensures DigitsAt(doc, pos).Some? ==> pos <= |doc| && DigitsAt(doc, pos) == Some(SkipDigits(doc, pos))
  {
  }

  /** The reader takes the same characters for the integer part. */
  lemma FirstDigits(doc: string, pos: nat, at: nat)
    requires at == if At(doc, pos) == '-' then pos + 1 else pos
    requires IntegerAt(doc, at).Some? && !IsDigit(At(doc, IntegerAt(doc, at).value))
    ensures pos < |doc| && (IsDigit(doc[pos]) || doc[pos] == '-')
    ensures SkipDigits(doc, pos + 1) == IntegerAt(doc, at).value
  {
  }

  // ----- The writers' integers -----

  lemma {:induction false} DigitsEnd(doc: string, pos: nat, s: string)
    requires IsAt(doc, pos, s) && AllDigits(s) && !IsDigit(At(doc, pos + |s|))
    ensures SkipDigits(doc, pos) == pos + |s|
    decreases |s|
  {
    if s != [] {
      assert doc[pos] == s[0];
      assert forall k :: 0 <= k < |s[1..]| ==> s[1..][k] == s[k + 1];
      DigitsEnd(doc, pos + 1, s[1..]);
    }
  }

  lemma {:induction false} NoLeadingZero(n: nat)
    ensures Digits(n) != [] && (Digits(n)[0] == '0' ==> n == 0)
  {
    if n >= 10 {
      NoLeadingZero(n / 10);
    }
  }

  lemma WrittenDigits(doc: string, pos: nat, n: nat)
    requires IsAt(doc, pos, Digits(n)) && !ContinuesNumber(At(doc, pos + |Digits(n)|))
    ensures IntegerAt(doc, pos) == Some(pos + |Digits(n)|)
    ensures pos < |doc| && IsDigit(doc[pos])
  {
    hide SkipDigits;
    NumberOfDigits(n);
    NoLeadingZero(n);
    DigitsEnd(doc, pos, Digits(n));
    assert doc[pos] == Digits(n)[0];
    if doc[pos] == '0' {
      assert Digits(0) == [DigitChar(0)];
    } else {
      hide Digits;
    }
  }

  /** The writers spell integers by the grammar. */
  lemma WrittenInteger(doc: string, pos: nat, i: int)
    requires IsAt(doc, pos, IntText(i)) && !ContinuesNumber(At(doc, pos + |IntText(i)|))
    ensures NumberAt(doc, pos) == Some(pos + |IntText(i)|)
  {
    hide Digits, IntegerAt;
    if i < 0 {
      IsAtSplit(doc, pos, "-", Digits(-i));
      assert doc[pos] == "-"[0];
      WrittenDigits(doc, pos + 1, -i);
    } else {
      WrittenDigits(doc, pos, i);
    }
  }
}
