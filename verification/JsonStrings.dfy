/** Writing strings between quotes, and why reading gives them back. */
module JsonStrings {
  import opened Wrappers
  import opened Decimal
  import opened Unicode
  import opened JsonScanner

  predicate IsControl(c: char) {
    '\0' < c <= '\U{001F}'
  }

  /** The characters with an escape of one letter. */
  function Letter(c: char): Option<char> {
    match c
    case '"' => Some('"')
    case '\\' => Some('\\')
    case '\U{0008}' => Some('b')
    case '\U{000C}' => Some('f')
    case '\n' => Some('n')
    case '\r' => Some('r')
    case '\t' => Some('t')
    case _ => None
  }

  function UpperHex(d: nat): char
    requires d < 16
  {
    if d < 10 then '0' + d as char else 'A' + (d - 10) as char
  }

  function Escape(c: char): string {
    if Letter(c).Some? then ['\\', Letter(c).value]
    else if IsControl(c) || c == '\0' then ['\\', 'u', '0', '0', UpperHex(c as nat / 16), UpperHex(c as nat % 16)]
    else [c]
  }

  function EscapeAll(s: string): string {
    if s == [] then [] else Escape(s[0]) + EscapeAll(s[1..])
  }

  function Quote(s: string): string {
    "\"" + EscapeAll(s) + "\""
  }

  lemma {:induction false} EscapeAllAppend(s: string, c: char)
    ensures EscapeAll(s + [c]) == EscapeAll(s) + Escape(c)
  {
    if s == [] {
      assert EscapeAll([c]) == Escape(c) + EscapeAll([]);
    } else {
      EscapeAllAppend(s[1..], c);
      assert (s + [c])[1..] == s[1..] + [c];
    }
  }

  lemma {:induction false} PlainIsUnchanged(s: string)
    requires forall k :: 0 <= k < |s| ==> Letter(s[k]).None?
    requires forall k :: 0 <= k < |s| ==> !IsControl(s[k]) && s[k] != '\0'
    ensures EscapeAll(s) == s
  {
    if s != [] {
      PlainIsUnchanged(s[1..]);
    }
  }

  /** Whether a string has a character with a one-letter escape. */
  method HasLetterEscape(value: string) returns (found: bool)
    ensures found <==> exists k :: 0 <= k < |value| && Letter(value[k]).Some?
  {
    for i := 0 to |value|
      invariant forall k :: 0 <= k < i ==> Letter(value[k]).None?
    {
      if Letter(value[i]).Some? {
        return true;
      }
    }
    found := false;
  }

  method ContainsControlCharacter0(value: string) returns (found: bool)
    ensures found <==> exists k :: 0 <= k < |value| && (IsControl(value[k]) || value[k] == '\0')
  {
    for i := 0 to |value|
      invariant forall k :: 0 <= k < i ==> !IsControl(value[k]) && value[k] != '\0'
    {
      if IsControl(value[i]) || value[i] == '\0' {
        return true;
      }
    }
    found := false;
  }

  /** `valueToQuotedStringN`: a string without special characters is copied whole,
      any other escaped one by one. */
  method ValueToQuotedStringN(value: string) returns (result: string)
    ensures result == Quote(value)
  {
    hide Escape, Letter, IsControl;
    var letters := HasLetterEscape(value);
    var controls := ContainsControlCharacter0(value);
    if !letters && !controls {
      PlainIsUnchanged(value);
      return "\"" + value + "\"";
    }
    result := "\"";
    for i := 0 to |value|
      invariant result == "\"" + EscapeAll(value[..i])
    {
      assert value[..i + 1] == value[..i] + [value[i]];
      EscapeAllAppend(value[..i], value[i]);
      result := result + Escape(value[i]);
    }
    assert value[..|value|] == value;
    result := result + "\"";
  }

  /** The characters of a string up to its first NUL. */
  function CStr(s: string): string {
    if s == [] || s[0] == '\0' then [] else [s[0]] + CStr(s[1..])
  }

  lemma {:induction false} CStrFacts(s: string)
    ensures '\0' !in CStr(s)
    ensures CStr(s) == s <==> '\0' !in s
  {
    if s != [] && s[0] != '\0' {
      CStrFacts(s[1..]);
      assert s == [s[0]] + s[1..];
    }
  }

  // ----- Unicode escapes -----

  lemma IsAtSplit(doc: string, pos: nat, a: string, b: string)
    ensures IsAt(doc, pos, a + b) <==> IsAt(doc, pos, a) && IsAt(doc, pos + |a|, b)
  {
    if IsAt(doc, pos, a + b) {
      assert forall k :: 0 <= k < |a| ==> a[k] == (a + b)[k];
      assert forall k :: 0 <= k < |b| ==> b[k] == (a + b)[|a| + k];
    }
  }

  /** Four hexadecimal digits of either case that spell a code unit. */
  ghost predicate Spells(h: string, unit: nat) {
    && |h| == 4 && (forall k :: 0 <= k < 4 ==> IsHex(h[k]))
    && unit == 4096 * HexValue(h[0]) + 256 * HexValue(h[1]) + 16 * HexValue(h[2]) + HexValue(h[3])
  }

  lemma ReadsUnit(doc: string, pos: nat, end: nat, h: string, unit: nat)
    requires IsAt(doc, pos, h) && Spells(h, unit) && pos + 4 <= end <= |doc|
    ensures ReadUnit(doc, pos, end) == Unit(unit, pos + 4)
  {
    assert doc[pos] == h[0] && doc[pos + 1] == h[1] && doc[pos + 2] == h[2] && doc[pos + 3] == h[3];
    var one := HexValue(h[0]);
    var two := one * 16 + HexValue(h[1]);
    var three := two * 16 + HexValue(h[2]);
    assert HexDigits(doc, pos, 4, 0) == HexDigits(doc, pos + 1, 3, one);
    assert HexDigits(doc, pos + 1, 3, one) == HexDigits(doc, pos + 2, 2, two);
    assert HexDigits(doc, pos + 2, 2, two) == HexDigits(doc, pos + 3, 1, three);
    assert HexDigits(doc, pos + 3, 1, three) == HexDigits(doc, pos + 4, 0, unit);
  }

  /** The text of the escapes for a scalar value, its digits of any case. */
  ghost predicate EscapesScalar(text: string, cp: nat) {
    if cp < 0x10000 then exists h :: Spells(h, cp) && text == "\\u" + h
    else cp <= 0x10FFFF && exists h, l :: Spells(h, HighUnit(cp)) && Spells(l, LowUnit(cp)) && text == "\\u" + h + "\\u" + l
  }

  /** Decoding a scalar value's escape gives its well-formed UTF-8, in place. */
  lemma UnicodeEscapeDecodes(doc: string, pos: nat, end: nat, text: string, cp: nat)
    requires IsScalar(cp) && EscapesScalar(text, cp)
    requires IsAt(doc, pos, text) && pos + |text| <= end <= |doc|
    ensures DecodeString(doc, pos, end) == Prepend(CodePointToUTF8(cp), DecodeString(doc, pos + |text|, end))
    ensures ReadUTF8(CodePointToUTF8(cp)) == Some(cp)
  {
    EncodesExactlyScalars(cp);
    hide ReadUTF8, CodePointToUTF8, HexDigits, IsAt, DecodeString, HighUnit, LowUnit;
    if cp < 0x10000 {
      var h :| Spells(h, cp) && text == "\\u" + h;
      OneEscape(doc, pos, end, h, cp);
    } else {
      var h, l :| Spells(h, HighUnit(cp)) && Spells(l, LowUnit(cp)) && text == "\\u" + h + "\\u" + l;
      TwoEscapes(doc, pos, end, h, l, cp);
    }
  }

  lemma AtEscape(doc: string, pos: nat, h: string, unit: nat)
    requires Spells(h, unit) && IsAt(doc, pos, "\\u" + h)
    ensures doc[pos] == '\\' && doc[pos + 1] == 'u' && IsAt(doc, pos + 2, h)
  {
    IsAtSplit(doc, pos, "\\u", h);
    assert doc[pos] == "\\u"[0] && doc[pos + 1] == "\\u"[1];
  }

  lemma OneEscape(doc: string, pos: nat, end: nat, h: string, cp: nat)
    requires IsScalar(cp) && Spells(h, cp) && IsAt(doc, pos, "\\u" + h) && pos + 6 <= end <= |doc|
    ensures DecodeString(doc, pos, end) == Prepend(CodePointToUTF8(cp), DecodeString(doc, pos + 6, end))
  {
    hide CodePointToUTF8, ReadUnit;
    AtEscape(doc, pos, h, cp);
    ReadsUnit(doc, pos + 2, end, h, cp);
  }

  lemma TwoEscapes(doc: string, pos: nat, end: nat, h: string, l: string, cp: nat)
    requires 0x10000 <= cp <= 0x10FFFF && Spells(h, HighUnit(cp)) && Spells(l, LowUnit(cp))
    requires IsAt(doc, pos, "\\u" + h + "\\u" + l) && pos + 12 <= end <= |doc|
    ensures DecodeString(doc, pos, end) == Prepend(CodePointToUTF8(cp), DecodeString(doc, pos + 12, end))
  {
    hide CodePointToUTF8, ReadUnit, IsAt, Combine, HighUnit, LowUnit;
    assert "\\u" + h + "\\u" + l == ("\\u" + h) + ("\\u" + l);
    IsAtSplit(doc, pos, "\\u" + h, "\\u" + l);
    AtEscape(doc, pos, h, HighUnit(cp));
    AtEscape(doc, pos + 6, l, LowUnit(cp));
    SurrogatesRoundTrip(cp);
    ReadsUnit(doc, pos + 2, end, h, HighUnit(cp));
    ReadsUnit(doc, pos + 8, end, l, LowUnit(cp));
  }

  lemma UnitIsSpelled(doc: string, at: nat, end: nat)
    requires at <= end <= |doc| && ReadUnit(doc, at, end).Unit?
    ensures var r := ReadUnit(doc, at, end);
            at + 4 == r.next && Spells(doc[at..at + 4], r.code) && r.code < 0x10000
  {
    var one := HexValue(doc[at]);
    assert HexDigits(doc, at, 4, 0) == HexDigits(doc, at + 1, 3, one);
    var two := one * 16 + HexValue(doc[at + 1]);
    assert HexDigits(doc, at + 1, 3, one) == HexDigits(doc, at + 2, 2, two);
    var three := two * 16 + HexValue(doc[at + 2]);
    assert HexDigits(doc, at + 2, 2, two) == HexDigits(doc, at + 3, 1, three);
    assert HexDigits(doc, at + 3, 1, three) == HexDigits(doc, at + 4, 0, three * 16 + HexValue(doc[at + 3]));
  }

  /** When an accepted escape decodes to well-formed UTF-8: unless it begins with a low
      surrogate. */
  lemma EscapeIsWellFormedIff(doc: string, pos: nat, end: nat)
    requires pos <= end <= |doc| && ReadCodePoint(doc, pos, end).Unit?
    ensures ReadUTF8(CodePointToUTF8(ReadCodePoint(doc, pos, end).code)).Some? <==> !IsLowSurrogate(ReadUnit(doc, pos, end).code)
  {
    hide CodePointToUTF8, ReadUTF8, Combine, ReadUnit;
    var first := ReadUnit(doc, pos, end);
    UnitIsSpelled(doc, pos, end);
    EncodesExactlyScalars(ReadCodePoint(doc, pos, end).code);
    if IsHighSurrogate(first.code) {
      UnitIsSpelled(doc, first.next + 2, end);
      CombineDenotesIff(first.code, ReadUnit(doc, first.next + 2, end).code);
    }
  }

  /** When what an accepted escape decodes to is what it spells, a scalar value on its own
      or the pair of one: unless it begins with a low surrogate, or with a high one that
      anything but a low one follows, which is not checked. */
  lemma EscapeDenotesIff(doc: string, pos: nat, end: nat)
    requires pos + 2 <= end <= |doc| && IsAt(doc, pos, "\\u") && ReadCodePoint(doc, pos + 2, end).Unit?
    ensures var first, r := ReadUnit(doc, pos + 2, end), ReadCodePoint(doc, pos + 2, end);
            IsScalar(r.code) && EscapesScalar(doc[pos..r.next], r.code)
            <==> !IsLowSurrogate(first.code)
                 && (IsHighSurrogate(first.code) ==> IsLowSurrogate(ReadUnit(doc, first.next + 2, end).code))
  {
    hide ReadUnit, Spells, Combine;
    var first, r := ReadUnit(doc, pos + 2, end), ReadCodePoint(doc, pos + 2, end);
    UnitIsSpelled(doc, pos + 2, end);
    assert doc[pos] == "\\u"[0] && doc[pos + 1] == "\\u"[1];
    var h := doc[pos + 2..pos + 6];
    if IsHighSurrogate(first.code) {
      UnitIsSpelled(doc, pos + 8, end);
      var l, low := doc[pos + 8..pos + 12], ReadUnit(doc, pos + 8, end).code;
      CombineDenotesIff(first.code, low);
      assert doc[pos..r.next] == "\\u" + h + "\\u" + l;
      PairIsSpelledIff(doc[pos..r.next], h, l, first.code, low, r.code);
    } else {
      assert doc[pos..r.next] == "\\u" + h;
    }
  }

  lemma PairHasOneSpelling(h: string, l: string, h': string, l': string)
    requires |h| == |l| == |h'| == |l'| == 4 && "\\u" + h + "\\u" + l == "\\u" + h' + "\\u" + l'
    ensures h == h' && l == l'
  {
    var text := "\\u" + h + "\\u" + l;
    assert text[2..6] == h && text[8..12] == l;
    assert ("\\u" + h' + "\\u" + l')[2..6] == h' && ("\\u" + h' + "\\u" + l')[8..12] == l';
  }

  lemma SpellsOne(h: string, a: nat, b: nat)
    requires Spells(h, a)
    ensures |h| == 4 && (Spells(h, b) ==> a == b)
  {
  }

  lemma PairIsSpelledIff(text: string, h: string, l: string, high: nat, low: nat, cp: nat)
    requires Spells(h, high) && Spells(l, low) && text == "\\u" + h + "\\u" + l && 0x10000 <= cp <= 0x10FFFF
    ensures EscapesScalar(text, cp) <==> high == HighUnit(cp) && low == LowUnit(cp)
  {
    hide HighUnit, LowUnit, Spells;
    SpellsOne(h, high, HighUnit(cp));
    SpellsOne(l, low, LowUnit(cp));
    if EscapesScalar(text, cp) {
      var h', l' :| Spells(h', HighUnit(cp)) && Spells(l', LowUnit(cp)) && text == "\\u" + h' + "\\u" + l';
      SpellsOne(h', HighUnit(cp), high);
      SpellsOne(l', LowUnit(cp), low);
      PairHasOneSpelling(h, l, h', l');
    }
  }

  /** A lone low surrogate is accepted and decodes to no UTF-8; a high one accepts the
      escape of a plain letter as its second half. */
  lemma LoneSurrogateIsIllFormed()
    ensures ReadCodePoint("DC00", 0, 4) == Unit(0xDC00, 4) && ReadUTF8(CodePointToUTF8(0xDC00)) == None
    ensures ReadCodePoint("D800\\u0041", 0, 10) == Unit(0x10041, 10)
  {
    hide CodePointToUTF8, ReadUTF8, ReadUnit;
    EncodesExactlyScalars(0xDC00);
    ReadsUnit("DC00", 0, 4, "DC00", 0xDC00);
    var doc := "D800\\u0041";
    ReadsUnit(doc, 0, 10, "D800", 0xD800);
    ReadsUnit(doc, 6, 10, "0041", 0x41);
  }
}
