/**
 The lexical half of the JSON reader, as functions of the document and a position.
 Reading at the end of the document yields the terminating NUL.
 */
module JsonScanner {
  import opened Wrappers
  import opened Decimal
  import opened Unicode

  datatype Kind =
    | ObjectBegin | ObjectEnd | ArrayBegin | ArrayEnd
    | StringToken | NumberToken | TrueToken | FalseToken | NullToken
    | ArraySeparator | MemberSeparator | Comment | EndOfStream | ErrorToken

  /** A token that is a whole value. */
  predicate IsScalarToken(k: Kind) {
    k == StringToken || k == NumberToken || k == TrueToken || k == FalseToken || k == NullToken
  }

  /** A token and the range it covers. */
  datatype Token = Token(kind: Kind, start: nat, end: nat)

  /** How far a scan got and whether it found what it was after. */
  datatype Scan = Scan(ok: bool, end: nat)

  /** What an error says. */
  datatype Message =
    | ValueExpected | MemberNameExpected | ColonExpected | MemberEndExpected | ElementEndExpected
    | NotANumber(text: string)
    | EmptyEscape | BadEscape
    | FourDigitsExpected | HexDigitExpected | SixCharactersExpected | SecondEscapeExpected

  function At(doc: string, pos: nat): char {
    if pos < |doc| then doc[pos] else '\0'
  }

  predicate IsAt(doc: string, pos: nat, text: string) {
    pos + |text| <= |doc| && forall k {:trigger text[k]} :: 0 <= k < |text| ==> doc[pos + k] == text[k]
  }

  predicate IsSpace(c: char) {
    c == ' ' || c == '\t' || c == '\r' || c == '\n'
  }

  function SkipSpaces(doc: string, pos: nat): (r: nat)
    requires pos <= |doc|
    ensures pos <= r <= |doc|
    decreases |doc| - pos
  {
    if pos < |doc| && IsSpace(doc[pos]) then SkipSpaces(doc, pos + 1) else pos
  }

  function SkipDigits(doc: string, pos: nat): (r: nat)
    requires pos <= |doc|
    ensures pos <= r <= |doc|
    decreases |doc| - pos
  {
    if pos < |doc| && IsDigit(doc[pos]) then SkipDigits(doc, pos + 1) else pos
  }

  /** The end of a number whose first character has been consumed: digits, a fraction,
      an exponent, each part possibly empty. */
  function NumberEnd(doc: string, pos: nat): (r: nat)
    requires pos <= |doc|
    ensures pos <= r <= |doc|
  {
    var whole := SkipDigits(doc, pos);
    var fraction := if At(doc, whole) == '.' then SkipDigits(doc, whole + 1) else whole;
    if At(doc, fraction) == 'e' || At(doc, fraction) == 'E' then
      var sign := At(doc, fraction + 1);
      SkipDigits(doc, if sign == '+' || sign == '-' then fraction + 2 else fraction + 1)
    else fraction
  }

  /** The rest of a string after its opening quote, up to the first quote no backslash
      escapes. */
  function StringEnd(doc: string, pos: nat): (r: Scan)
    requires pos <= |doc|
    ensures pos <= r.end <= |doc| && (r.ok ==> pos < r.end)
    decreases |doc| - pos
  {
    if pos == |doc| then Scan(false, pos)
    else if doc[pos] == '\\' then StringEnd(doc, if pos + 1 < |doc| then pos + 2 else pos + 1)
    else if doc[pos] == '"' then Scan(true, pos + 1)
    else StringEnd(doc, pos + 1)
  }

  function CStyleEnd(doc: string, pos: nat): (r: Scan)
    requires pos <= |doc|
    ensures pos <= r.end <= |doc|
    decreases |doc| - pos
  {
    if pos == |doc| then Scan(false, pos)
    else if doc[pos] == '*' && At(doc, pos + 1) == '/' then Scan(true, pos + 2)
    else CStyleEnd(doc, pos + 1)
  }

  function CppStyleEnd(doc: string, pos: nat): (r: nat)
    requires pos <= |doc|
    ensures pos <= r <= |doc|
    decreases |doc| - pos
  {
    if pos == |doc| then pos
    else if doc[pos] == '\n' then pos + 1
    else if doc[pos] == '\r' then (if At(doc, pos + 1) == '\n' then pos + 2 else pos + 1)
    else CppStyleEnd(doc, pos + 1)
  }

  /** The rest of a comment after its first slash. */
  function CommentEnd(doc: string, pos: nat): (r: Scan)
    requires pos <= |doc|
    ensures pos <= r.end <= |doc|
  {
    if pos == |doc| then Scan(false, pos)
    else if doc[pos] == '*' then CStyleEnd(doc, pos + 1)
    else if doc[pos] == '/' then Scan(true, CppStyleEnd(doc, pos + 1))
    else Scan(false, pos + 1)
  }

  /** The rest of a literal name after its first letter. */
  function WordEnd(doc: string, pos: nat, rest: string): (r: Scan)
    requires pos <= |doc|
    ensures pos <= r.end <= |doc|
  {
    if IsAt(doc, pos, rest) then Scan(true, pos + |rest|) else Scan(false, pos)
  }

  function KindOf(ok: bool, kind: Kind): Kind {
    if ok then kind else ErrorToken
  }

  /** The token that starts with the character at `start`. */
  function TokenAt(doc: string, start: nat): (t: Token)
    requires start <= |doc|
    ensures t.start == start <= t.end <= |doc|
    ensures t.kind != EndOfStream ==> start < t.end
    ensures t.kind == StringToken ==> start + 2 <= t.end
  {
    if start == |doc| then Token(EndOfStream, start, start)
    else
      var pos := start + 1;
      match doc[start]
      case '{' => Token(ObjectBegin, start, pos)
      case '}' => Token(ObjectEnd, start, pos)
      case '[' => Token(ArrayBegin, start, pos)
      case ']' => Token(ArrayEnd, start, pos)
      case ',' => Token(ArraySeparator, start, pos)
      case ':' => Token(MemberSeparator, start, pos)
      case '\0' => Token(EndOfStream, start, pos)
      case '"' => var r := StringEnd(doc, pos); Token(KindOf(r.ok, StringToken), start, r.end)
      case '/' => var r := CommentEnd(doc, pos); Token(KindOf(r.ok, Comment), start, r.end)
      case 't' => var r := WordEnd(doc, pos, "rue"); Token(KindOf(r.ok, TrueToken), start, r.end)
      case 'f' => var r := WordEnd(doc, pos, "alse"); Token(KindOf(r.ok, FalseToken), start, r.end)
      case 'n' => var r := WordEnd(doc, pos, "ull"); Token(KindOf(r.ok, NullToken), start, r.end)
      case c => if IsDigit(c) || c == '-' then Token(NumberToken, start, NumberEnd(doc, pos)) else Token(ErrorToken, start, pos)
  }

  function ReadToken(doc: string, pos: nat): (t: Token)
    requires pos <= |doc|
    ensures pos <= t.start <= t.end <= |doc|
    ensures t.kind != EndOfStream ==> t.start < t.end
    ensures t.kind == StringToken ==> t.start + 2 <= t.end
  {
    TokenAt(doc, SkipSpaces(doc, pos))
  }

  /** The first token that is no comment. */
  function SkipComments(doc: string, pos: nat): (t: Token)
    requires pos <= |doc|
    ensures pos <= t.start <= t.end <= |doc|
    ensures t.kind != EndOfStream ==> t.start < t.end
    ensures t.kind == StringToken ==> t.start + 2 <= t.end
    ensures t.kind != Comment
    decreases |doc| - pos
  {
    var t := ReadToken(doc, pos);
    if t.kind == Comment then SkipComments(doc, t.end) else t
  }

  /** Where error recovery resumes: past the next token of a kind, or at the end. */
  function RecoveryEnd(doc: string, pos: nat, until: Kind): (r: nat)
    requires pos <= |doc|
    ensures pos <= r <= |doc|
    decreases |doc| - pos
  {
    var t := ReadToken(doc, pos);
    if t.kind == until || t.kind == EndOfStream then t.end else RecoveryEnd(doc, t.end, until)
  }

  // ----- String contents -----

  /** The bytes a piece of string text decodes to, or why it does not. */
  datatype Decoded = Text(s: string) | Bad(message: Message, extra: nat)

  datatype Unit = Unit(code: nat, next: nat) | BadUnit(message: Message, extra: nat)

  predicate IsHex(c: char) {
    IsDigit(c) || 'a' <= c <= 'f' || 'A' <= c <= 'F'
  }

  function HexValue(c: char): (n: nat)
    requires IsHex(c)
    ensures n < 16
  {
    if IsDigit(c) then (c - '0') as nat
    else if 'a' <= c then (c - 'a') as nat + 10
    else (c - 'A') as nat + 10
  }

  /** Reads `n` more hexadecimal digits onto a value. */
  function HexDigits(doc: string, at: nat, n: nat, code: nat): (r: Unit)
    requires at + n <= |doc|
    ensures r.Unit? ==> r.next == at + n
    ensures r.BadUnit? ==> at <= r.extra <= |doc|
    decreases n
  {
    if n == 0 then Unit(code, at)
    else if !IsHex(doc[at]) then BadUnit(HexDigitExpected, at + 1)
    else HexDigits(doc, at + 1, n - 1, code * 16 + HexValue(doc[at]))
  }

  function ReadUnit(doc: string, at: nat, end: nat): (r: Unit)
    requires at <= end <= |doc|
    ensures r.Unit? ==> at < r.next <= end
  {
    if end - at < 4 then BadUnit(FourDigitsExpected, at)
    else HexDigits(doc, at, 4, 0)
  }

  /** The code point of a `\u` escape; a high surrogate takes the next escape with it. */
  function ReadCodePoint(doc: string, at: nat, end: nat): (r: Unit)
    requires at <= end <= |doc|
    ensures r.Unit? ==> at < r.next <= end
  {
    var first := ReadUnit(doc, at, end);
    if first.BadUnit? || !IsHighSurrogate(first.code) then first
    else if end - first.next < 6 then
      BadUnit(SixCharactersExpected, first.next)
    else if doc[first.next] != '\\' || doc[first.next + 1] != 'u' then
      BadUnit(SecondEscapeExpected,
        if doc[first.next] != '\\' then first.next + 1 else first.next + 2)
    else
      var second := ReadUnit(doc, first.next + 2, end);
      if second.BadUnit? then second else Unit(Combine(first.code, second.code), second.next)
  }

  /** What a one-letter escape stands for. */
  function Unescape(c: char): Option<char> {
    match c
    case '"' => Some('"')
    case '/' => Some('/')
    case '\\' => Some('\\')
    case 'b' => Some('\U{0008}')
    case 'f' => Some('\U{000C}')
    case 'n' => Some('\n')
    case 'r' => Some('\r')
    case 't' => Some('\t')
    case _ => None
  }

  function Prepend(s: string, rest: Decoded): Decoded {
    if rest.Text? then Text(s + rest.s) else rest
  }

  /** Decodes the text of a string between its quotes. */
  function DecodeString(doc: string, at: nat, end: nat): Decoded
    requires at <= end <= |doc|
    decreases end - at
  {
    if at == end || doc[at] == '"' then Text("")
    else if doc[at] != '\\' then Prepend([doc[at]], DecodeString(doc, at + 1, end))
    else if at + 1 == end then Bad(EmptyEscape, at + 1)
    else if doc[at + 1] == 'u' then
      var r := ReadCodePoint(doc, at + 2, end);
      if r.BadUnit? then Bad(r.message, r.extra) else Prepend(CodePointToUTF8(r.code), DecodeString(doc, r.next, end))
    else
      var c := Unescape(doc[at + 1]);
      if c.None? then Bad(BadEscape, at + 2)
      else Prepend([c.value], DecodeString(doc, at + 2, end))
  }
}
