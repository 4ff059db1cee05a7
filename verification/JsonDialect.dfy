/**
 The language the reader accepts, character by character and apart from how it scans: the
 grammar of RFC 8259 and what the reader adds to it. It adds

 - comments wherever a value, a name or what follows a value may stand;
 - numbers with leading zeros, without digits in a part, or whose integer part is empty;
 - control characters inside strings, and escapes of surrogates that are no pair;
 - words, and numbers, that nothing need separate from what follows;
 - an object's closing brace after a comma that follows a member without a name;
 - any token in place of the comma, where a comment has come after a member;
 - any text after the value.
 */
module JsonDialect {
  import opened Wrappers
  import opened JsonValue
  import opened Unicode

  function CharAt(doc: string, pos: nat): char {
    if pos < |doc| then doc[pos] else '\0'
  }

  // ----- Space and comments -----

  predicate Blank(c: char) {
    c == ' ' || c == '\t' || c == '\r' || c == '\n'
  }

  function AfterBlanks(doc: string, pos: nat): (r: nat)
    requires pos <= |doc|
    ensures pos <= r <= |doc|
    decreases |doc| - pos
  {
    if pos < |doc| && Blank(doc[pos]) then AfterBlanks(doc, pos + 1) else pos
  }

  /** The end of the first closing mark. */
  function AfterMark(doc: string, pos: nat): (r: Option<nat>)
    ensures r.Some? ==> pos < r.value <= |doc|
    decreases |doc| - pos
  {
    if pos + 2 > |doc| then None
    else if doc[pos] == '*' && doc[pos + 1] == '/' then Some(pos + 2)
    else AfterMark(doc, pos + 1)
  }

  /** The end of the line; carriage return and line feed are one end. */
  function AfterLine(doc: string, pos: nat): (r: nat)
    requires pos <= |doc|
    ensures pos <= r <= |doc|
    decreases |doc| - pos
  {
    if pos == |doc| then pos
    else if doc[pos] == '\n' then pos + 1
    else if doc[pos] == '\r' then (if CharAt(doc, pos + 1) == '\n' then pos + 2 else pos + 1)
    else AfterLine(doc, pos + 1)
  }

  function CommentAt(doc: string, pos: nat): (r: Option<nat>)
    ensures r.Some? ==> pos < r.value <= |doc|
  {
    if CharAt(doc, pos) == '/' && CharAt(doc, pos + 1) == '*' then AfterMark(doc, pos + 2)
    else if CharAt(doc, pos) == '/' && CharAt(doc, pos + 1) == '/' then Some(AfterLine(doc, pos + 2))
    else None
  }

  /** Past all space and comments. */
  function AfterGaps(doc: string, pos: nat): (r: nat)
    requires pos <= |doc|
    ensures pos <= r <= |doc|
    decreases |doc| - pos
  {
    var start := AfterBlanks(doc, pos);
    var comment := CommentAt(doc, start);
    if comment.Some? then AfterGaps(doc, comment.value) else start
  }

  // ----- Strings -----

  /** What a piece of string text denotes and where it ends. */
  datatype Piece = Piece(s: string, end: nat)

  function HexDigit(c: char): Option<nat> {
    if '0' <= c <= '9' then Some((c - '0') as nat)
    else if 'a' <= c <= 'f' then Some((c - 'a') as nat + 10)
    else if 'A' <= c <= 'F' then Some((c - 'A') as nat + 10)
    else None
  }

  /** The code unit of a Unicode escape. */
  function EscapedUnit(doc: string, pos: nat): (r: Option<nat>)
    ensures r.Some? ==> pos + 6 <= |doc|
  {
    if pos + 6 > |doc| || doc[pos] != '\\' || doc[pos + 1] != 'u' then None
    else
      var a, b, c, d := HexDigit(doc[pos + 2]), HexDigit(doc[pos + 3]), HexDigit(doc[pos + 4]), HexDigit(doc[pos + 5]);
      if a.Some? && b.Some? && c.Some? && d.Some?
      then Some(4096 * a.value + 256 * b.value + 16 * c.value + d.value)
      else None
  }

  /** A high surrogate takes the next escape with it, whatever its unit; any other unit
      stands for itself. */
  function EscapeAt(doc: string, pos: nat): (r: Option<Piece>)
    ensures r.Some? ==> pos < r.value.end <= |doc|
  {
    var unit := EscapedUnit(doc, pos);
    if unit.None? then None
    else if unit.value < 0xD800 || unit.value > 0xDBFF then Some(Piece(CodePointToUTF8(unit.value), pos + 6))
    else
      var low := EscapedUnit(doc, pos + 6);
      if low.None? then None
      else Some(Piece(CodePointToUTF8(0x10000 + (unit.value - 0xD800) * 0x400 + low.value % 0x400), pos + 12))
  }

  function LetterEscape(c: char): Option<char> {
    if c == '"' || c == '\\' || c == '/' then Some(c)
    else if c == 'b' then Some('\U{0008}')
    else if c == 'f' then Some('\U{000C}')
    else if c == 'n' then Some('\n')
    else if c == 'r' then Some('\r')
    else if c == 't' then Some('\t')
    else None
  }

  /** Any character but the quote and the backslash stands for itself. */
  function CharacterAt(doc: string, pos: nat): (r: Option<Piece>)
    ensures r.Some? ==> pos < r.value.end <= |doc|
  {
    if pos >= |doc| || doc[pos] == '"' then None
    else if doc[pos] != '\\' then Some(Piece([doc[pos]], pos + 1))
    else if CharAt(doc, pos + 1) == 'u' then EscapeAt(doc, pos)
    else
      var c := LetterEscape(CharAt(doc, pos + 1));
      if c.Some? then Some(Piece([c.value], pos + 2)) else None
  }

  /** The characters up to the closing quote, and the end after it. */
  function CharactersAt(doc: string, pos: nat): (r: Option<Piece>)
    ensures r.Some? ==> pos < r.value.end <= |doc|
    decreases |doc| - pos
  {
    if CharAt(doc, pos) == '"' then Some(Piece("", pos + 1))
    else
      var first := CharacterAt(doc, pos);
      if first.None? then None
      else
        var rest := CharactersAt(doc, first.value.end);
        if rest.None? then None else Some(Piece(first.value.s + rest.value.s, rest.value.end))
  }

  function StringAt(doc: string, pos: nat): (r: Option<Piece>)
    ensures r.Some? ==> pos + 1 < r.value.end <= |doc|
  {
    if CharAt(doc, pos) == '"' then CharactersAt(doc, pos + 1) else None
  }

  // ----- Numbers -----

  predicate Digit(c: char) {
    '0' <= c <= '9'
  }

  function AfterDigits(doc: string, pos: nat): (r: nat)
    requires pos <= |doc|
    ensures pos <= r <= |doc|
    decreases |doc| - pos
  {
    if pos < |doc| && Digit(doc[pos]) then AfterDigits(doc, pos + 1) else pos
  }

  /** After a digit or a minus sign: digits, a point and digits, a letter e with a sign and
      digits, any of the digits missing. */
  function AfterNumber(doc: string, pos: nat): (r: nat)
    requires pos < |doc|
    ensures pos < r <= |doc|
  {
    var whole := AfterDigits(doc, pos + 1);
    var fraction := if CharAt(doc, whole) == '.' then AfterDigits(doc, whole + 1) else whole;
    if CharAt(doc, fraction) == 'e' || CharAt(doc, fraction) == 'E' then
      if CharAt(doc, fraction + 1) == '+' || CharAt(doc, fraction + 1) == '-'
      then AfterDigits(doc, fraction + 2) else AfterDigits(doc, fraction + 1)
    else fraction
  }

  predicate OnlyDigits(s: string) {
    forall k :: 0 <= k < |s| ==> Digit(s[k])
  }

  function DigitOf(c: char): nat
    requires Digit(c)
  {
    (c - '0') as nat
  }

  function Positional(s: string): nat
    requires OnlyDigits(s)
  {
    if s == [] then 0 else 10 * Positional(s[..|s| - 1]) + DigitOf(s[|s| - 1])
  }

  /** Digits within 64 bits, no digits counting as zero, are an integer, stored as signed up
      to the largest 32-bit one. What else is a number is up to the C++ library. */
  function NumberOf(text: string, dbl: string -> Option<Double>): Option<Payload> {
    var negative := text != [] && text[0] == '-';
    var digits := if negative then text[1..] else text;
    var n: int := if OnlyDigits(digits) then Positional(digits) else -1;
    if 0 <= n <= (if negative then 0x8000_0000_0000_0000 else 0xFFFF_FFFF_FFFF_FFFF) then
      if negative then Some(Int(-n)) else if n <= 0x7FFF_FFFF then Some(Int(n)) else Some(UInt(n))
    else
      match dbl(text)
      case Some(d) => Some(Real(d))
      case None => None
  }

  // ----- Tokens nobody asked for -----

  /** The end of a string or of what began as one. */
  function AfterQuoted(doc: string, pos: nat): (r: nat)
    requires pos <= |doc|
    ensures pos <= r <= |doc|
    decreases |doc| - pos
  {
    if pos == |doc| then pos
    else if doc[pos] == '"' then pos + 1
    else if doc[pos] == '\\' && pos + 1 < |doc| then AfterQuoted(doc, pos + 2)
    else AfterQuoted(doc, pos + 1)
  }

  predicate WordAt(doc: string, pos: nat, word: string) {
    pos + |word| <= |doc| && doc[pos..pos + |word|] == word
  }

  /** The end of whatever token stands here that is no comment. */
  function AfterAny(doc: string, pos: nat): (r: nat)
    requires pos < |doc|
    ensures pos < r <= |doc|
  {
    var c := doc[pos];
    if c == '"' then AfterQuoted(doc, pos + 1)
    else if Digit(c) || c == '-' then AfterNumber(doc, pos)
    else if WordAt(doc, pos, "true") || WordAt(doc, pos, "null") then pos + 4
    else if WordAt(doc, pos, "false") then pos + 5
    else if c == '/' && CharAt(doc, pos + 1) == '*' then |doc|
    else if c == '/' && pos + 1 < |doc| then pos + 2
    else pos + 1
  }

  // ----- Values -----

  datatype Denoted = Denoted(v: Value, end: nat)

  datatype DenotedList = DenotedList(items: seq<Member>, end: nat)

  function Plain(p: Payload): Value {
    Value(p, 0, 0)
  }

  function Cons(m: Member, rest: Option<DenotedList>): (r: Option<DenotedList>)
    ensures r.Some? == rest.Some? && (r.Some? ==> r.value.end == rest.value.end)
  {
    if rest.None? then None else Some(rest.value.(items := [m] + rest.value.items))
  }

  function ValueAt(doc: string, pos: nat, dbl: string -> Option<Double>): (r: Option<Denoted>)
    requires pos <= |doc|
    ensures r.Some? ==> pos < r.value.end <= |doc|
    decreases |doc| - pos, 0
  {
    var start := AfterGaps(doc, pos);
    var c := CharAt(doc, start);
    if c == '{' then
      var list := MembersAt(doc, start + 1, dbl, true);
      if list.Some? then Some(Denoted(Plain(Object(list.value.items)), list.value.end)) else None
    else if c == '[' then
      var list := ArrayAt(doc, start + 1, dbl);
      if list.Some? then Some(Denoted(Plain(Array(list.value.items)), list.value.end)) else None
    else if c == '"' then
      var s := StringAt(doc, start);
      if s.Some? then Some(Denoted(Plain(Str(s.value.s)), s.value.end)) else None
    else if WordAt(doc, start, "true") then Some(Denoted(Plain(Bool(true)), start + 4))
    else if WordAt(doc, start, "false") then Some(Denoted(Plain(Bool(false)), start + 5))
    else if WordAt(doc, start, "null") then Some(Denoted(Plain(Null), start + 4))
    else if Digit(c) || c == '-' then
      var p := NumberOf(doc[start..AfterNumber(doc, start)], dbl);
      if p.Some? then Some(Denoted(Plain(p.value), AfterNumber(doc, start))) else None
    else None
  }

  /** An array after its opening bracket. No comment may stand in an empty one. */
  function ArrayAt(doc: string, pos: nat, dbl: string -> Option<Double>): (r: Option<DenotedList>)
    requires pos <= |doc|
    ensures r.Some? ==> pos < r.value.end <= |doc|
    decreases |doc| - pos, 2
  {
    var start := AfterBlanks(doc, pos);
    if CharAt(doc, start) == ']' then Some(DenotedList([], start + 1)) else ElementsAt(doc, start, dbl, 0)
  }

  function ElementsAt(doc: string, pos: nat, dbl: string -> Option<Double>, index: nat): (r: Option<DenotedList>)
    requires pos <= |doc|
    ensures r.Some? ==> pos < r.value.end <= |doc|
    decreases |doc| - pos, 1
  {
    var x := ValueAt(doc, pos, dbl);
    if x.None? then None
    else
      var m, next := Member(Index(index), x.value.v), AfterGaps(doc, x.value.end);
      if CharAt(doc, next) == ']' then Some(DenotedList([m], next + 1))
      else if CharAt(doc, next) == ',' then Cons(m, ElementsAt(doc, next + 1, dbl, index + 1))
      else None
  }

  /** The members of an object; it may be closed here if none has come yet, or the last one
      has no name. No comment may stand before a colon. */
  function MembersAt(doc: string, pos: nat, dbl: string -> Option<Double>, closable: bool): (r: Option<DenotedList>)
    requires pos <= |doc|
    ensures r.Some? ==> pos < r.value.end <= |doc|
    decreases |doc| - pos, 1
  {
    var start := AfterGaps(doc, pos);
    if closable && CharAt(doc, start) == '}' then Some(DenotedList([], start + 1))
    else
      var name := StringAt(doc, start);
      var colon := if name.Some? then AfterBlanks(doc, name.value.end) else start;
      var x := if name.Some? && CharAt(doc, colon) == ':' then ValueAt(doc, colon + 1, dbl) else None;
      if x.None? then None
      else
        var m, next := Member(Name(name.value.s), x.value.v), AfterMember(doc, x.value.end);
        if next.None? then None
        else if next.value.closed then Some(DenotedList([m], next.value.end))
        else Cons(m, MembersAt(doc, next.value.end, dbl, name.value.s == ""))
  }

  datatype Separator = Separator(closed: bool, end: nat)

  /** What comes after a member: the closing brace or a comma; where a comment comes first,
      the brace or anything at all. */
  function AfterMember(doc: string, pos: nat): (r: Option<Separator>)
    requires pos <= |doc|
    ensures r.Some? ==> pos < r.value.end <= |doc|
  {
    var next, later := AfterBlanks(doc, pos), AfterGaps(doc, pos);
    if CharAt(doc, next) == '}' then Some(Separator(true, next + 1))
    else if CharAt(doc, next) == ',' then Some(Separator(false, next + 1))
    else if CommentAt(doc, next).None? || later == |doc| then None
    else if doc[later] == '}' then Some(Separator(true, later + 1))
    else Some(Separator(false, AfterAny(doc, later)))
  }
}
