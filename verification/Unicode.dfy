/** Code points and their bytes, each byte a character up to 255. */
module Unicode {
  import opened Wrappers

  /** A Unicode scalar value: a code point that is no surrogate. */
  predicate IsScalar(cp: nat) {
    cp <= 0x10FFFF && !IsSurrogate(cp)
  }

  predicate IsSurrogate(unit: nat) {
    0xD800 <= unit <= 0xDFFF
  }

  predicate IsHighSurrogate(unit: nat) {
    0xD800 <= unit <= 0xDBFF
  }

  predicate IsLowSurrogate(unit: nat) {
    0xDC00 <= unit <= 0xDFFF
  }

  /** The low `width` values of a byte on top of a tag. */
  function Byte(tag: nat, bits: nat): char
    requires tag + bits < 256
  {
    (tag + bits) as char
  }

  /** `codePointToUTF8`: nothing beyond the last code point. */
  function CodePointToUTF8(cp: nat): string {
    if cp <= 0x7F then [Byte(0, cp)]
    else if cp <= 0x7FF then [Byte(0xC0, cp / 0x40 % 0x20), Byte(0x80, cp % 0x40)]
    else if cp <= 0xFFFF then [Byte(0xE0, cp / 0x1000 % 0x10), Byte(0x80, cp / 0x40 % 0x40), Byte(0x80, cp % 0x40)]
    else if cp <= 0x10FFFF then
      [Byte(0xF0, cp / 0x4_0000 % 8), Byte(0x80, cp / 0x1000 % 0x40), Byte(0x80, cp / 0x40 % 0x40), Byte(0x80, cp % 0x40)]
    else []
  }

  predicate Tail(c: char) {
    0x80 <= c as nat <= 0xBF
  }

  /** One UTF-8 sequence by the syntax of section 4 of RFC 3629, as the scalar value
      its bits spell. */
  function ReadUTF8(s: string): Option<nat> {
    if |s| == 1 && s[0] as nat <= 0x7F then Some(s[0] as nat)
    else if |s| == 2 && 0xC2 <= s[0] as nat <= 0xDF && Tail(s[1]) then
      Some((s[0] as nat - 0xC0) * 0x40 + (s[1] as nat - 0x80))
    else if |s| == 3 && 0xE0 <= s[0] as nat <= 0xEF && Tail(s[1]) && Tail(s[2])
      && (s[0] as nat == 0xE0 ==> s[1] as nat >= 0xA0) && (s[0] as nat == 0xED ==> s[1] as nat <= 0x9F) then
      Some((s[0] as nat - 0xE0) * 0x1000 + (s[1] as nat - 0x80) * 0x40 + (s[2] as nat - 0x80))
    else if |s| == 4 && 0xF0 <= s[0] as nat <= 0xF4 && Tail(s[1]) && Tail(s[2]) && Tail(s[3])
      && (s[0] as nat == 0xF0 ==> s[1] as nat >= 0x90) && (s[0] as nat == 0xF4 ==> s[1] as nat <= 0x8F) then
      Some((s[0] as nat - 0xF0) * 0x4_0000 + (s[1] as nat - 0x80) * 0x1000 + (s[2] as nat - 0x80) * 0x40 + (s[3] as nat - 0x80))
    else None
  }

  lemma ReadTwo(a: nat, b: nat)
    requires 2 <= a < 0x20 && b < 0x40
    ensures ReadUTF8([Byte(0xC0, a), Byte(0x80, b)]) == Some(a * 0x40 + b)
  {
  }

  /** Three bytes spell no short form and no surrogate. */
  lemma ReadThree(a: nat, b: nat, c: nat)
    requires a < 0x10 && b < 0x40 && c < 0x40
    ensures ReadUTF8([Byte(0xE0, a), Byte(0x80, b), Byte(0x80, c)])
         == if (a == 0 && b < 0x20) || (a == 0xD && b >= 0x20) then None else Some(a * 0x1000 + b * 0x40 + c)
  {
  }

  lemma ReadFour(a: nat, b: nat, c: nat, d: nat)
    requires a <= 4 && b < 0x40 && c < 0x40 && d < 0x40
    requires (a == 0 ==> b >= 0x10) && (a == 4 ==> b < 0x10)
    ensures ReadUTF8([Byte(0xF0, a), Byte(0x80, b), Byte(0x80, c), Byte(0x80, d)])
         == Some(a * 0x4_0000 + b * 0x1000 + c * 0x40 + d)
  {
  }

  predicate Encodes(cp: nat) {
    ReadUTF8(CodePointToUTF8(cp)) == if IsScalar(cp) then Some(cp) else None
  }

  lemma EncodesTwo(cp: nat)
    requires 0x7F < cp <= 0x7FF
    ensures Encodes(cp)
  {
    hide ReadUTF8, Byte;
    ReadTwo(cp / 0x40 % 0x20, cp % 0x40);
  }

  lemma EncodesThree(cp: nat)
    requires 0x7FF < cp <= 0xFFFF
    ensures Encodes(cp)
  {
    hide ReadUTF8, Byte;
    ReadThree(cp / 0x1000 % 0x10, cp / 0x40 % 0x40, cp % 0x40);
  }

  lemma EncodesFour(cp: nat)
    requires 0xFFFF < cp <= 0x10FFFF
    ensures Encodes(cp)
  {
    hide ReadUTF8, Byte;
    var sixes, twelves, eighteens := cp / 0x40, cp / 0x1000, cp / 0x4_0000;
    assert twelves == sixes / 0x40 && eighteens == twelves / 0x40;
    assert eighteens <= 4 && (eighteens == 0 ==> twelves >= 0x10) && (eighteens == 4 ==> twelves < 0x110);
    ReadFour(eighteens % 8, twelves % 0x40, sixes % 0x40, cp % 0x40);
  }

  /** The bytes written for a code point are well-formed UTF-8 that spells it, exactly
      for the scalar values. */
  lemma EncodesExactlyScalars(cp: nat)
    ensures ReadUTF8(CodePointToUTF8(cp)) == if IsScalar(cp) then Some(cp) else None
  {
    if 0x7F < cp <= 0x7FF {
      EncodesTwo(cp);
    } else if 0x7FF < cp <= 0xFFFF {
      EncodesThree(cp);
    } else if 0xFFFF < cp <= 0x10FFFF {
      EncodesFour(cp);
    }
  }

  /** No two scalar values share their bytes. */
  lemma EncodingIsInjective(a: nat, b: nat)
    requires IsScalar(a) && IsScalar(b) && CodePointToUTF8(a) == CodePointToUTF8(b)
    ensures a == b
  {
    EncodesExactlyScalars(a);
    EncodesExactlyScalars(b);
  }

  /** What the reader makes of a high surrogate and the unit that follows it. */
  function Combine(high: nat, low: nat): nat {
    0x10000 + (high % 0x400) * 0x400 + low % 0x400
  }

  function HighUnit(cp: nat): nat
    requires 0x10000 <= cp <= 0x10FFFF
  {
    0xD800 + (cp - 0x10000) / 0x400
  }

  function LowUnit(cp: nat): nat
    requires 0x10000 <= cp <= 0x10FFFF
  {
    0xDC00 + (cp - 0x10000) % 0x400
  }

  /** Splitting into surrogates (section 7 of RFC 8259) and combining are inverse. */
  lemma SurrogatesRoundTrip(cp: nat)
    requires 0x10000 <= cp <= 0x10FFFF
    ensures IsHighSurrogate(HighUnit(cp)) && IsLowSurrogate(LowUnit(cp))
    ensures Combine(HighUnit(cp), LowUnit(cp)) == cp
  {
  }

  /** Whatever follows a high surrogate, the two combine to a scalar value, and they are
      that value's surrogates exactly when a low one follows. */
  lemma CombineDenotesIff(high: nat, low: nat)
    requires IsHighSurrogate(high) && low < 0x10000
    ensures var cp := Combine(high, low);
            && 0x10000 <= cp <= 0x10FFFF && IsScalar(cp)
            && high == HighUnit(cp) && (low == LowUnit(cp) <==> IsLowSurrogate(low))
  {
    var cp := Combine(high, low);
    assert (cp - 0x10000) / 0x400 == high % 0x400 && (cp - 0x10000) % 0x400 == low % 0x400;
  }
}
