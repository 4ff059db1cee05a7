/**
 The reader accepts the texts of its dialect and no others: parsing succeeds exactly on a
 text that begins with a value of the dialect nested no deeper than the limit, and then
 returns that value.
 */
module JsonAccepted {
  import opened Wrappers
  import opened JsonValue
  import opened JsonOrder
  import opened Decimal
  import opened Unicode
  import opened JsonScanner
  import opened JsonReading
  import opened JsonText
  import opened JsonRoundTrip
  import D = JsonDialect

  // ----- Space and comments -----

  lemma {:induction false} BlanksAgree(doc: string, pos: nat)
    requires pos <= |doc|
    ensures D.AfterBlanks(doc, pos) == SkipSpaces(doc, pos)
    decreases |doc| - pos
  {
    if pos < |doc| && D.Blank(doc[pos]) {
      BlanksAgree(doc, pos + 1);
    }
  }

  lemma {:induction false} MarksAgree(doc: string, pos: nat)
    requires pos <= |doc|
    ensures CStyleEnd(doc, pos) == match D.AfterMark(doc, pos) case Some(e) => Scan(true, e) case None => Scan(false, |doc|)
    decreases |doc| - pos
  {
    if pos < |doc| {
      MarksAgree(doc, pos + 1);
    }
  }

  lemma {:induction false} LinesAgree(doc: string, pos: nat)
    requires pos <= |doc|
    ensures CppStyleEnd(doc, pos) == D.AfterLine(doc, pos)
    decreases |doc| - pos
  {
    if pos < |doc| && doc[pos] != '\n' && doc[pos] != '\r' {
      LinesAgree(doc, pos + 1);
    }
  }

  /** A slash begins a comment of either form, or an error token. */
  lemma SlashToken(doc: string, start: nat)
    requires start < |doc| && doc[start] == '/'
    ensures TokenAt(doc, start) == match D.CommentAt(doc, start)
                                   case Some(e) => Token(Comment, start, e)
                                   case None => Token(ErrorToken, start, D.AfterAny(doc, start))
  {
    hide CStyleEnd, CppStyleEnd;
    FirstLetters(doc, start);
    if start + 1 < |doc| {
      if doc[start + 1] == '*' {
        MarksAgree(doc, start + 2);
      } else if doc[start + 1] == '/' {
        LinesAgree(doc, start + 2);
      }
    }
  }

  // ----- Numbers -----

  lemma {:induction false} DigitsAgree(doc: string, pos: nat)
    requires pos <= |doc|
    ensures D.AfterDigits(doc, pos) == SkipDigits(doc, pos)
    decreases |doc| - pos
  {
    if pos < |doc| && D.Digit(doc[pos]) {
      DigitsAgree(doc, pos + 1);
    }
  }

  lemma NumbersAgree(doc: string, start: nat)
    requires start < |doc|
    ensures D.AfterNumber(doc, start) == NumberEnd(doc, start + 1)
  {
    hide SkipDigits, D.AfterDigits;
    DigitsAgree(doc, start + 1);
    var whole := SkipDigits(doc, start + 1);
    if At(doc, whole) == '.' && whole < |doc| {
      DigitsAgree(doc, whole + 1);
    }
    var fraction := if At(doc, whole) == '.' then SkipDigits(doc, whole + 1) else whole;
    if (At(doc, fraction) == 'e' || At(doc, fraction) == 'E') && fraction < |doc| {
      DigitsAgree(doc, if At(doc, fraction + 1) == '+' || At(doc, fraction + 1) == '-' then fraction + 2 else fraction + 1);
    }
  }

  lemma {:induction false} PositionsAgree(s: string)
    requires AllDigits(s)
    ensures D.OnlyDigits(s) && D.Positional(s) == Decimal.Number(s)
  {
    if s != [] {
      PositionsAgree(s[..|s| - 1]);
    }
  }

  lemma NumberMeans(text: string, dbl: DoubleReader)
    ensures D.NumberOf(text, dbl) == DecodeNumber(text, dbl)
  {
    hide D.Positional, Decimal.Number;
    var negative := text != [] && text[0] == '-';
    var digits := if negative then text[1..] else text;
    assert D.OnlyDigits(digits) <==> AllDigits(digits);
    if AllDigits(digits) {
      PositionsAgree(digits);
    }
  }

  // ----- Strings -----

  lemma {:induction false} QuotedAgree(doc: string, pos: nat)
    requires pos <= |doc|
    ensures StringEnd(doc, pos).end == D.AfterQuoted(doc, pos)
    decreases |doc| - pos
  {
    if pos < |doc| {
      if doc[pos] == '\\' && pos + 1 < |doc| {
        QuotedAgree(doc, pos + 2);
      } else {
        QuotedAgree(doc, pos + 1);
      }
    }
  }

  lemma HexAgrees(c: char)
    ensures D.HexDigit(c) == if IsHex(c) then Some(HexValue(c)) else None
  {
  }

  lemma UnitsAgree(doc: string, pos: nat, end: nat)
    requires pos + 6 <= end <= |doc| && doc[pos] == '\\' && doc[pos + 1] == 'u'
    ensures D.EscapedUnit(doc, pos) == match ReadUnit(doc, pos + 2, end) case Unit(code, _) => Some(code) case BadUnit(_, _) => None
    ensures ReadUnit(doc, pos + 2, end).Unit? ==> ReadUnit(doc, pos + 2, end).next == pos + 6
  {
    hide D.HexDigit, IsHex, HexValue;
    HexAgrees(doc[pos + 2]);
    HexAgrees(doc[pos + 3]);
    HexAgrees(doc[pos + 4]);
    HexAgrees(doc[pos + 5]);
    FourDigits(doc, pos + 2);
  }

  lemma FourDigits(doc: string, at: nat)
    requires at + 4 <= |doc|
    ensures HexDigits(doc, at, 4, 0).Unit? <==> IsHex(doc[at]) && IsHex(doc[at + 1]) && IsHex(doc[at + 2]) && IsHex(doc[at + 3])
    ensures HexDigits(doc, at, 4, 0).Unit? ==>
              HexDigits(doc, at, 4, 0) == Unit(4096 * HexValue(doc[at]) + 256 * HexValue(doc[at + 1]) + 16 * HexValue(doc[at + 2]) + HexValue(doc[at + 3]), at + 4)
  {
    hide IsHex, HexValue;
    if IsHex(doc[at]) {
      var one := HexValue(doc[at]);
      assert HexDigits(doc, at, 4, 0) == HexDigits(doc, at + 1, 3, one);
      if IsHex(doc[at + 1]) {
        var two := one * 16 + HexValue(doc[at + 1]);
        assert HexDigits(doc, at + 1, 3, one) == HexDigits(doc, at + 2, 2, two);
        if IsHex(doc[at + 2]) {
          var three := two * 16 + HexValue(doc[at + 2]);
          assert HexDigits(doc, at + 2, 2, two) == HexDigits(doc, at + 3, 1, three);
          if IsHex(doc[at + 3]) {
            assert HexDigits(doc, at + 3, 1, three) == HexDigits(doc, at + 4, 0, three * 16 + HexValue(doc[at + 3]));
          }
        }
      }
    }
  }

  /** The scan for the closing quote passes over an escape. */
  lemma ScanPasses(doc: string, pos: nat)
    requires D.EscapedUnit(doc, pos).Some?
    ensures StringEnd(doc, pos) == StringEnd(doc, pos + 6)
  {
    assert StringEnd(doc, pos) == StringEnd(doc, pos + 2);
    assert StringEnd(doc, pos + 2) == StringEnd(doc, pos + 3);
    assert StringEnd(doc, pos + 3) == StringEnd(doc, pos + 4);
    assert StringEnd(doc, pos + 4) == StringEnd(doc, pos + 5);
  }

  /** What the two make of an escape in a string that ends after `end`. */
  lemma EscapesAgree(doc: string, pos: nat, end: nat)
    requires pos + 2 <= end < |doc| && doc[pos] == '\\' && doc[pos + 1] == 'u' && StringEnd(doc, pos) == Scan(true, end + 1)
    ensures D.EscapeAt(doc, pos) == match ReadCodePoint(doc, pos + 2, end)
                                    case Unit(code, next) => Some(D.Piece(CodePointToUTF8(code), next))
                                    case BadUnit(_, _) => None
    ensures D.EscapeAt(doc, pos).Some? ==> StringEnd(doc, D.EscapeAt(doc, pos).value.end) == Scan(true, end + 1)
  {
    hide CodePointToUTF8, StringEnd, ReadUnit, D.EscapedUnit;
    EscapeInside(doc, pos, end);
    if D.EscapedUnit(doc, pos).Some? {
      UnitsAgree(doc, pos, end);
      var unit := D.EscapedUnit(doc, pos).value;
      if IsHighSurrogate(unit) {
        if pos + 8 <= end && doc[pos + 6] == '\\' && doc[pos + 7] == 'u' {
          EscapeInside(doc, pos + 6, end);
          if pos + 12 <= end {
            UnitsAgree(doc, pos + 6, end);
          }
          CombinedAlike(unit, if D.EscapedUnit(doc, pos + 6).Some? then D.EscapedUnit(doc, pos + 6).value else 0);
        } else {
          NoEscape(doc, pos + 6, end);
        }
      }
    } else if pos + 6 <= end {
      UnitsAgree(doc, pos, end);
    } else {
      TooShort(doc, pos + 2, end);
    }
  }

  lemma CombinedAlike(high: nat, low: nat)
    requires IsHighSurrogate(high)
    ensures Combine(high, low) == 0x10000 + (high - 0xD800) * 0x400 + low % 0x400
  {
    assert high % 0x400 == high - 0xD800;
  }

  lemma TooShort(doc: string, at: nat, end: nat)
    requires at <= end <= |doc| && end < at + 4
    ensures ReadUnit(doc, at, end).BadUnit?
  {
  }

  /** An escape in a string ends before the string's end. */
  lemma EscapeInside(doc: string, pos: nat, end: nat)
    requires pos <= end < |doc| && StringEnd(doc, pos) == Scan(true, end + 1)
    ensures D.EscapedUnit(doc, pos).Some? ==> pos + 6 <= end && StringEnd(doc, pos + 6) == Scan(true, end + 1)
  {
    if D.EscapedUnit(doc, pos).Some? {
      ScanPasses(doc, pos);
    }
  }

  /** Where the string goes on without an escape there is none to read. */
  lemma NoEscape(doc: string, pos: nat, end: nat)
    requires pos <= end < |doc| && StringEnd(doc, pos) == Scan(true, end + 1)
    requires !(pos + 2 <= end && doc[pos] == '\\' && doc[pos + 1] == 'u')
    ensures D.EscapedUnit(doc, pos).None?
  {
    EscapeInside(doc, pos, end);
  }

  lemma LettersAgree(c: char)
    ensures D.LetterEscape(c) == Unescape(c)
  {
  }

  /** One character of a string that ends after `end`. */
  lemma CharacterAgrees(doc: string, pos: nat, end: nat)
    requires pos < end < |doc| && doc[pos] != '"' && StringEnd(doc, pos) == Scan(true, end + 1)
    ensures var c := D.CharacterAt(doc, pos);
            if c.Some? then
              && c.value.end <= end && StringEnd(doc, c.value.end) == Scan(true, end + 1)
              && DecodeString(doc, pos, end) == Prepend(c.value.s, DecodeString(doc, c.value.end, end))
            else DecodeString(doc, pos, end).Bad?
  {
    hide D.EscapeAt, ReadCodePoint, CodePointToUTF8, Unescape, D.LetterEscape;
    if doc[pos] == '\\' {
      LettersAgree(doc[pos + 1]);
      if pos + 1 < end && doc[pos + 1] == 'u' {
        EscapesAgree(doc, pos, end);
      }
    }
  }

  /** The characters of a string that ends. */
  lemma {:induction false} CharactersAgree(doc: string, pos: nat, end: nat)
    requires pos <= end < |doc| && StringEnd(doc, pos) == Scan(true, end + 1)
    ensures D.CharactersAt(doc, pos) == match DecodeString(doc, pos, end)
                                        case Text(s) => Some(D.Piece(s, end + 1))
                                        case Bad(_, _) => None
    decreases end - pos
  {
    hide D.CharacterAt, ReadCodePoint, CodePointToUTF8, Unescape;
    if pos == end || doc[pos] == '"' {
      EndsHere(doc, pos, end);
    } else {
      CharacterAgrees(doc, pos, end);
      var c := D.CharacterAt(doc, pos);
      if c.Some? {
        CharactersAgree(doc, c.value.end, end);
      }
    }
  }

  lemma EndsHere(doc: string, pos: nat, end: nat)
    requires pos <= end < |doc| && StringEnd(doc, pos) == Scan(true, end + 1) && (pos == end || doc[pos] == '"')
    ensures pos == end && doc[pos] == '"'
  {
  }

  /** A string that never ends has no characters either. */
  lemma {:induction false} NoEndNoCharacters(doc: string, pos: nat)
    requires pos <= |doc| && !StringEnd(doc, pos).ok
    ensures D.CharactersAt(doc, pos).None?
    decreases |doc| - pos
  {
    if pos < |doc| {
      var c := D.CharacterAt(doc, pos);
      if c.Some? {
        PassesCharacter(doc, pos);
        NoEndNoCharacters(doc, c.value.end);
      }
    }
  }

  lemma PassesCharacter(doc: string, pos: nat)
    requires D.CharacterAt(doc, pos).Some?
    ensures StringEnd(doc, pos) == StringEnd(doc, D.CharacterAt(doc, pos).value.end)
  {
    hide D.EscapedUnit, CodePointToUTF8, D.LetterEscape;
    if doc[pos] == '\\' && D.CharAt(doc, pos + 1) == 'u' {
      ScanPasses(doc, pos);
      if D.EscapeAt(doc, pos).value.end == pos + 12 {
        ScanPasses(doc, pos + 6);
      }
    }
  }

  // ----- Tokens -----

  /** The string token and its text. */
  lemma StringToken(doc: string, start: nat)
    requires start < |doc| && doc[start] == '"'
    ensures var t := TokenAt(doc, start);
            && (t.kind == JsonScanner.StringToken || t.kind == ErrorToken) && t.end == D.AfterAny(doc, start)
            && D.StringAt(doc, start)
               == if t.kind != JsonScanner.StringToken then None
                  else match DecodeString(doc, start + 1, t.end - 1) case Text(s) => Some(D.Piece(s, t.end)) case Bad(_, _) => None
  {
    hide StringEnd, DecodeString, D.CharactersAt, D.AfterQuoted;
    QuotedAgree(doc, start + 1);
    if StringEnd(doc, start + 1).ok {
      CharactersAgree(doc, start + 1, StringEnd(doc, start + 1).end - 1);
    } else {
      NoEndNoCharacters(doc, start + 1);
    }
  }

  lemma WordsAgree(doc: string, start: nat, word: string)
    requires word != [] && start < |doc| && doc[start] == word[0]
    ensures D.WordAt(doc, start, word) <==> IsAt(doc, start + 1, word[1..])
  {
    if D.WordAt(doc, start, word) {
      assert forall k {:trigger word[k]} :: 0 <= k < |word| ==> doc[start + k] == doc[start..start + |word|][k] == word[k];
    }
    if IsAt(doc, start + 1, word[1..]) {
      assert forall k {:trigger word[k]} :: 0 < k < |word| ==> doc[start + k] == word[1..][k - 1] == word[k];
    }
  }

  lemma WordToken(doc: string, start: nat)
    requires start < |doc| && (doc[start] == 't' || doc[start] == 'f' || doc[start] == 'n')
    ensures TokenAt(doc, start)
         == Token(if D.WordAt(doc, start, "true") then TrueToken
                  else if D.WordAt(doc, start, "false") then FalseToken
                  else if D.WordAt(doc, start, "null") then NullToken
                  else ErrorToken, start, D.AfterAny(doc, start))
  {
    hide IsAt, D.WordAt;
    FirstLetters(doc, start);
    assert "true"[1..] == "rue" && "false"[1..] == "alse" && "null"[1..] == "ull";
    if doc[start] == 't' {
      WordsAgree(doc, start, "true");
    } else if doc[start] == 'f' {
      WordsAgree(doc, start, "false");
    } else {
      WordsAgree(doc, start, "null");
    }
  }

  lemma FirstLetters(doc: string, start: nat)
    requires start < |doc|
    ensures D.WordAt(doc, start, "true") ==> doc[start] == 't'
    ensures D.WordAt(doc, start, "false") ==> doc[start] == 'f'
    ensures D.WordAt(doc, start, "null") ==> doc[start] == 'n'
  {
    if D.WordAt(doc, start, "true") {
      assert doc[start..start + 4][0] == "true"[0];
    }
    if D.WordAt(doc, start, "false") {
      assert doc[start..start + 5][0] == "false"[0];
    }
    if D.WordAt(doc, start, "null") {
      assert doc[start..start + 4][0] == "null"[0];
    }
  }

  /** Every token, by its first character; none but these are of these kinds. */
  lemma Tokens(doc: string, start: nat)
    requires start <= |doc|
    ensures var t, c := TokenAt(doc, start), D.CharAt(doc, start);
            && (t.kind == ObjectBegin <==> c == '{') && (t.kind == ObjectEnd <==> c == '}')
            && (t.kind == ArrayBegin <==> c == '[') && (t.kind == ArrayEnd <==> c == ']')
            && (t.kind == ArraySeparator <==> c == ',') && (t.kind == MemberSeparator <==> c == ':')
            && (t.kind == NumberToken <==> D.Digit(c) || c == '-')
            && (t.kind == JsonScanner.StringToken ==> c == '"')
            && (t.kind == TrueToken <==> D.WordAt(doc, start, "true"))
            && (t.kind == FalseToken <==> D.WordAt(doc, start, "false"))
            && (t.kind == NullToken <==> D.WordAt(doc, start, "null"))
            && (t.kind == Comment <==> D.CommentAt(doc, start).Some?)
            && (t.kind == Comment ==> t.end == D.CommentAt(doc, start).value)
            && (t.kind != Comment && start < |doc| ==> t.end == D.AfterAny(doc, start))
            && (start == |doc| ==> t == Token(EndOfStream, start, start))
  {
    if start == |doc| {
      NoWordAtEnd(doc);
    } else {
      FirstLetters(doc, start);
      var c := doc[start];
      hide D.WordAt, D.AfterNumber, D.AfterQuoted, NumberEnd, StringEnd, CommentEnd, WordEnd, D.CharactersAt, DecodeString;
      if c == '/' {
        SlashToken(doc, start);
      } else if c == '"' {
        StringToken(doc, start);
      } else if c == 't' || c == 'f' || c == 'n' {
        WordToken(doc, start);
      } else if D.Digit(c) || c == '-' {
        NumbersAgree(doc, start);
      }
    }
  }

  lemma NoWordAtEnd(doc: string)
    ensures !D.WordAt(doc, |doc|, "true") && !D.WordAt(doc, |doc|, "false") && !D.WordAt(doc, |doc|, "null")
  {
  }

  /** The reader's next token stands past all gaps. */
  lemma {:induction false} GapsAgree(doc: string, pos: nat)
    requires pos <= |doc|
    ensures SkipComments(doc, pos) == TokenAt(doc, D.AfterGaps(doc, pos))
    ensures D.CommentAt(doc, D.AfterGaps(doc, pos)).None?
    decreases |doc| - pos
  {
    hide TokenAt, D.CommentAt, D.AfterBlanks, SkipSpaces;
    BlanksAgree(doc, pos);
    var start := D.AfterBlanks(doc, pos);
    Tokens(doc, start);
    if D.CommentAt(doc, start).Some? {
      GapsAgree(doc, D.CommentAt(doc, start).value);
    }
  }

  // ----- Values -----

  /** The reader's outcome is what the dialect says: its value, or the depth exception when
      that is nested too deeply, and no success where there is none. */
  ghost predicate Agrees(r: Outcome, depth: nat, x: Option<D.Denoted>) {
    if x.None? then !(r.Read? && r.ok) else ReadsAs(r, depth, Depth(x.value.v), Normal(x.value.v).payload, x.value.end)
  }

  ghost predicate ListAgrees(r: Outcome, depth: nat, braces: bool, items: seq<Member>, x: Option<D.DenotedList>) {
    if x.None? then !(r.Read? && r.ok)
    else ReadsList(r, depth, DepthOfAll(x.value.items), braces, PutAll(items, NormalAll(x.value.items)), x.value.end)
  }

  /** A scalar's token and its value. */
  lemma ScalarAgrees(doc: string, dbl: DoubleReader, pos: nat)
    requires pos <= |doc| && SkipComments(doc, pos).kind != ObjectBegin && SkipComments(doc, pos).kind != ArrayBegin
    ensures var t, x := SkipComments(doc, pos), D.ValueAt(doc, pos, dbl);
            match ScalarOf(doc, dbl, t)
            case None => x.None?
            case Some(p) => x == Some(D.Denoted(D.Plain(p), t.end)) && Depth(D.Plain(p)) == 1 && Normal(D.Plain(p)).payload == p
  {
    hide SkipComments, TokenAt, DecodeString, DecodeNumber, D.NumberOf, D.AfterNumber, D.WordAt, D.StringAt, D.AfterGaps, D.ArrayAt, D.MembersAt;
    hide D.AfterAny, D.CommentAt, IsMark;
    var start := D.AfterGaps(doc, pos);
    GapsAgree(doc, pos);
    Tokens(doc, start);
    if start < |doc| {
      FirstLetters(doc, start);
      AnyEnd(doc, start);
      if doc[start] == '"' {
        StringToken(doc, start);
      }
      if D.Digit(doc[start]) || doc[start] == '-' {
        NumberMeans(doc[start..D.AfterNumber(doc, start)], dbl);
        NumberIsNormal(doc[start..D.AfterNumber(doc, start)], dbl);
      }
    }
  }

  /** A character that is a token by itself. */
  predicate IsMark(c: char) {
    c == '{' || c == '}' || c == '[' || c == ']' || c == ',' || c == ':'
  }

  lemma AnyEnd(doc: string, start: nat)
    requires start < |doc|
    ensures D.Digit(doc[start]) || doc[start] == '-' ==> D.AfterAny(doc, start) == D.AfterNumber(doc, start)
    ensures D.WordAt(doc, start, "true") ==> D.AfterAny(doc, start) == start + 4
    ensures D.WordAt(doc, start, "false") ==> D.AfterAny(doc, start) == start + 5
    ensures D.WordAt(doc, start, "null") ==> D.AfterAny(doc, start) == start + 4
    ensures IsMark(doc[start]) ==> D.AfterAny(doc, start) == start + 1
  {
    hide D.WordAt, D.AfterNumber, D.AfterQuoted;
    FirstLetters(doc, start);
  }

  lemma NumberIsNormal(text: string, dbl: DoubleReader)
    ensures var p := DecodeNumber(text, dbl); p.Some? ==> !IsContainer(p.value) && Normal(D.Plain(p.value)).payload == p.value
  {
    hide DecodeInteger;
  }

  lemma ScalarFails(doc: string, dbl: DoubleReader, pos: nat, depth: nat, cur: Value)
    requires pos <= |doc| && ScalarOf(doc, dbl, SkipComments(doc, pos)).None?
    requires SkipComments(doc, pos).kind != ObjectBegin && SkipComments(doc, pos).kind != ArrayBegin
    ensures var r := ReadValue(doc, dbl, pos, depth, cur); !(r.Read? && r.ok)
  {
    hide SkipComments, DecodeString, DecodeNumber, ReadMembers, ReadArray;
  }

  lemma DenseIsListed(items: seq<Member>)
    requires forall k :: 0 <= k < |items| ==> items[k].key == Index(k)
    ensures Listed(D.Plain(Array(items))) == items
  {
    var v := D.Plain(Array(items));
    forall k | 0 <= k < |items|
      ensures Listed(v)[k] == items[k]
    {
      FindSorted(items, k);
    }
    assert |Listed(v)| == |items|;
  }

  lemma {:induction false} ElementsAreDense(doc: string, pos: nat, dbl: DoubleReader, index: nat)
    requires pos <= |doc|
    ensures var x := D.ElementsAt(doc, pos, dbl, index);
            x.Some? ==> x.value.items != [] && forall k :: 0 <= k < |x.value.items| ==> x.value.items[k].key == Index(index + k)
    decreases |doc| - pos
  {
    hide D.ValueAt, D.AfterGaps;
    var x := D.ValueAt(doc, pos, dbl);
    if x.Some? && D.CharAt(doc, D.AfterGaps(doc, x.value.end)) == ',' {
      ElementsAreDense(doc, D.AfterGaps(doc, x.value.end) + 1, dbl, index + 1);
    }
  }

  /** A container read as a list. */
  lemma WrappedAgrees(r: Outcome, depth: nat, braces: bool, list: Option<D.DenotedList>)
    requires depth < STACK_LIMIT && ListAgrees(r, depth + 1, braces, [], list)
    requires list.Some? ==> Listed(D.Plain(if braces then Object(list.value.items) else Array(list.value.items))) == list.value.items
    ensures Agrees(Limit(r), depth,
              if list.None? then None
              else Some(D.Denoted(D.Plain(if braces then Object(list.value.items) else Array(list.value.items)), list.value.end)))
  {
    hide ReadsList, ReadsAs, PutAll, NormalAll, Listed, DepthOfAll;
    if list.Some? {
      LimitReads(r, depth, DepthOfAll(list.value.items), braces, PutAll([], NormalAll(list.value.items)), list.value.end);
    }
  }

  lemma DeepAgrees(r: Outcome, depth: nat, x: Option<D.Denoted>)
    requires r.Thrown? && depth >= STACK_LIMIT
    ensures Agrees(r, depth, x)
  {
  }

  lemma SeparatorEnds(doc: string, start: nat)
    requires start <= |doc|
    ensures IsMark(D.CharAt(doc, start)) ==> start < |doc| && D.AfterAny(doc, start) == start + 1
  {
    if start < |doc| {
      AnyEnd(doc, start);
    }
  }

  /** The next token, where it is a mark. */
  lemma NextMark(doc: string, pos: nat)
    requires pos <= |doc|
    ensures var t, c := SkipComments(doc, pos), D.CharAt(doc, D.AfterGaps(doc, pos));
            && (t.kind == ObjectBegin <==> c == '{') && (t.kind == ObjectEnd <==> c == '}')
            && (t.kind == ArrayBegin <==> c == '[') && (t.kind == ArrayEnd <==> c == ']')
            && (t.kind == ArraySeparator <==> c == ',')
            && t.start == D.AfterGaps(doc, pos)
            && (IsMark(c) ==> t.start < |doc| && t.end == t.start + 1)
  {
    hide SkipComments, TokenAt, D.AfterGaps, D.WordAt, D.CommentAt, D.AfterAny, D.Digit;
    GapsAgree(doc, pos);
    Tokens(doc, D.AfterGaps(doc, pos));
    SeparatorEnds(doc, D.AfterGaps(doc, pos));
  }

  /** Reading a value makes of any text, at any place and depth and over any old value, what
      the dialect makes of it. */
  lemma {:induction false} ValueAgrees(doc: string, dbl: DoubleReader, pos: nat, depth: nat, cur: Value)
    requires pos <= |doc|
    ensures Agrees(ReadValue(doc, dbl, pos, depth, cur), depth, D.ValueAt(doc, pos, dbl))
    decreases |doc| - pos, 0
  {
    hide SkipComments, TokenAt, ReadValue, ReadMembers, ReadArray, ScalarOf, Limit, D.AfterGaps, D.MembersAt, D.ArrayAt, D.ValueAt;
    hide Agrees, ListAgrees;
    var start, t := D.AfterGaps(doc, pos), SkipComments(doc, pos);
    NextMark(doc, pos);
    if t.kind == ObjectBegin {
      ObjectUnfolds(doc, dbl, pos, depth, cur);
      ObjectValue(doc, dbl, pos);
      var acc := Value(Object([]), start, cur.limit);
      if depth < STACK_LIMIT {
        MembersAgree(doc, dbl, start + 1, depth + 1, acc, "");
        WrappedAgrees(ReadMembers(doc, dbl, start + 1, depth + 1, acc, ""), depth, true, D.MembersAt(doc, start + 1, dbl, true));
      } else {
        DeepAgrees(ReadValue(doc, dbl, pos, depth, cur), depth, D.ValueAt(doc, pos, dbl));
      }
    } else if t.kind == ArrayBegin {
      ArrayUnfolds(doc, dbl, pos, depth, cur);
      ArrayValue(doc, dbl, pos);
      var acc := Value(Array([]), start, cur.limit);
      if depth < STACK_LIMIT {
        ArrayAgrees(doc, dbl, start + 1, depth + 1, acc);
        ArrayIsListed(doc, dbl, start + 1);
        WrappedAgrees(ReadArray(doc, dbl, start + 1, depth + 1, acc), depth, false, D.ArrayAt(doc, start + 1, dbl));
      } else {
        DeepAgrees(ReadValue(doc, dbl, pos, depth, cur), depth, D.ValueAt(doc, pos, dbl));
      }
    } else {
      ScalarAgrees(doc, dbl, pos);
      ScalarValueAgrees(doc, dbl, pos, depth, cur);
    }
  }

  lemma ScalarValueAgrees(doc: string, dbl: DoubleReader, pos: nat, depth: nat, cur: Value)
    requires pos <= |doc| && SkipComments(doc, pos).kind != ObjectBegin && SkipComments(doc, pos).kind != ArrayBegin
    requires var t, x := SkipComments(doc, pos), D.ValueAt(doc, pos, dbl);
             match ScalarOf(doc, dbl, t)
             case None => x.None?
             case Some(p) => x == Some(D.Denoted(D.Plain(p), t.end)) && Depth(D.Plain(p)) == 1 && Normal(D.Plain(p)).payload == p
    ensures Agrees(ReadValue(doc, dbl, pos, depth, cur), depth, D.ValueAt(doc, pos, dbl))
  {
    hide SkipComments, ReadValue, ScalarOf, D.ValueAt;
    if ScalarOf(doc, dbl, SkipComments(doc, pos)).Some? {
      ReadsScalarToken(doc, dbl, pos, depth, cur);
      ScalarIsErased(Value(ScalarOf(doc, dbl, SkipComments(doc, pos)).value, SkipComments(doc, pos).start, SkipComments(doc, pos).end));
    } else {
      ScalarFails(doc, dbl, pos, depth, cur);
    }
  }

  lemma ScalarIsErased(v: Value)
    requires Depth(D.Plain(v.payload)) == 1
    ensures Erase(v) == D.Plain(v.payload)
  {
    if IsContainer(v.payload) {
      assert DepthOfAll(v.payload.items) == 0;
      if v.payload.items != [] {
        DepthOfElement(v.payload.items, 0);
      }
    }
  }

  lemma ObjectValue(doc: string, dbl: DoubleReader, pos: nat)
    requires pos <= |doc| && D.CharAt(doc, D.AfterGaps(doc, pos)) == '{'
    ensures D.AfterGaps(doc, pos) < |doc|
    ensures var list := D.MembersAt(doc, D.AfterGaps(doc, pos) + 1, dbl, true);
            D.ValueAt(doc, pos, dbl) == if list.Some? then Some(D.Denoted(D.Plain(Object(list.value.items)), list.value.end)) else None
  {
    hide D.AfterGaps, D.MembersAt, D.ArrayAt;
  }

  lemma ArrayValue(doc: string, dbl: DoubleReader, pos: nat)
    requires pos <= |doc| && D.CharAt(doc, D.AfterGaps(doc, pos)) == '['
    ensures D.AfterGaps(doc, pos) < |doc|
    ensures var list := D.ArrayAt(doc, D.AfterGaps(doc, pos) + 1, dbl);
            D.ValueAt(doc, pos, dbl) == if list.Some? then Some(D.Denoted(D.Plain(Array(list.value.items)), list.value.end)) else None
  {
    hide D.AfterGaps, D.MembersAt, D.ArrayAt;
  }

  lemma ArrayIsListed(doc: string, dbl: DoubleReader, pos: nat)
    requires pos <= |doc|
    ensures var list := D.ArrayAt(doc, pos, dbl); list.Some? ==> Listed(D.Plain(Array(list.value.items))) == list.value.items
  {
    hide D.AfterBlanks, D.ElementsAt, Listed;
    var list := D.ArrayAt(doc, pos, dbl);
    ElementsAreDense(doc, D.AfterBlanks(doc, pos), dbl, 0);
    if list.Some? {
      DenseIsListed(list.value.items);
    }
  }

  lemma ArrayAgrees(doc: string, dbl: DoubleReader, pos: nat, depth: nat, acc: Value)
    requires pos <= |doc| && depth <= STACK_LIMIT && acc.payload.Array? && acc.payload.items == []
    ensures ListAgrees(ReadArray(doc, dbl, pos, depth, acc), depth, false, [], D.ArrayAt(doc, pos, dbl))
    decreases |doc| - pos, 2
  {
    hide ReadArray, ReadElements, D.ElementsAt, SkipSpaces, D.AfterBlanks, PutAll, Put;
    BlanksAgree(doc, pos);
    ArrayBody(doc, dbl, pos, depth, acc);
    if D.CharAt(doc, D.AfterBlanks(doc, pos)) == ']' {
      EmptyAgrees(depth, acc, D.AfterBlanks(doc, pos) + 1);
    } else {
      ElementsAgree(doc, dbl, D.AfterBlanks(doc, pos), depth, acc, 0);
    }
  }

  lemma EmptyAgrees(depth: nat, acc: Value, e: nat)
    requires depth <= STACK_LIMIT && IsContainer(acc.payload)
    ensures ListAgrees(Read(true, acc, e, []), depth, acc.payload.Object?, EraseAll(acc.payload.items), Some(D.DenotedList([], e)))
  {
    NothingMore(EraseAll(acc.payload.items));
  }

  // ----- Lists -----

  /** A list with one more member in front. */
  lemma ConsAgrees(r: Outcome, depth: nat, braces: bool, items: seq<Member>, m: Member, rest: Option<D.DenotedList>)
    requires depth + Depth(m.value) <= STACK_LIMIT
    requires ListAgrees(r, depth, braces, Put(items, m.key, Value(Normal(m.value).payload, 0, 0)), rest)
    ensures ListAgrees(r, depth, braces, items, D.Cons(m, rest))
  {
    hide Put, PutAll, NormalAll, Normal, Depth, DepthOfAll, EraseAll;
    if rest.Some? {
      var ms := [m] + rest.value.items;
      assert ms[1..] == rest.value.items;
      ListUnfolds(ms, items);
    }
  }

  lemma LastAgrees(depth: nat, w: Value, items: seq<Member>, m: Member, e: nat)
    requires depth + Depth(m.value) <= STACK_LIMIT && IsContainer(w.payload)
    requires EraseAll(w.payload.items) == Put(items, m.key, Value(Normal(m.value).payload, 0, 0))
    ensures ListAgrees(Read(true, w, e, []), depth, w.payload.Object?, items, Some(D.DenotedList([m], e)))
  {
    hide Put, NormalAll, Normal, Depth, EraseAll;
    ListUnfolds([m], items);
    NothingMore(EraseAll(w.payload.items));
  }

  /** A member nested too deeply makes its list throw. */
  lemma DeepListAgrees(r: Outcome, depth: nat, braces: bool, items: seq<Member>, m: Member, list: Option<D.DenotedList>)
    requires r.Thrown? && depth + Depth(m.value) > STACK_LIMIT
    requires list.Some? ==> list.value.items != [] && list.value.items[0] == m
    ensures ListAgrees(r, depth, braces, items, list)
  {
    hide Depth, PutAll, NormalAll;
    if list.Some? {
      DepthOfElement(list.value.items, 0);
    }
  }

  lemma ElementsStep(doc: string, dbl: DoubleReader, pos: nat, depth: nat, acc: Value, index: nat)
    requires pos <= |doc|
    ensures var child, r := ReadValue(doc, dbl, pos, depth, Reference(acc, Index(index))), ReadElements(doc, dbl, pos, depth, acc, index);
            var w, t := Assign(acc, Index(index), child.value), SkipComments(doc, child.next);
            && (child.Thrown? ==> r.Thrown?)
            && (if !(child.Read? && child.ok) then !(r.Read? && r.ok)
                else if t.kind == ArrayEnd then r == Read(true, w, t.end, [])
                else if t.kind == ArraySeparator then r == ReadElements(doc, dbl, t.end, depth, w, index + 1)
                else !(r.Read? && r.ok))
  {
    hide ReadValue, ReadMembers, ReadArray, JsonReading.AfterMember, SkipComments, RecoveryEnd, Reference, Assign;
  }

  lemma {:induction false} ElementsAgree(doc: string, dbl: DoubleReader, pos: nat, depth: nat, acc: Value, index: nat)
    requires pos <= |doc| && depth <= STACK_LIMIT && acc.payload.Array?
    ensures ListAgrees(ReadElements(doc, dbl, pos, depth, acc, index), depth, false, EraseAll(acc.payload.items), D.ElementsAt(doc, pos, dbl, index))
    decreases |doc| - pos, 1
  {
    hide SkipComments, ReadValue, ReadElements, Reference, Assign, D.AfterGaps, D.ValueAt, ListAgrees, EraseAll, Normal, Depth;
    var cur := Reference(acc, Index(index));
    ValueAgrees(doc, dbl, pos, depth, cur);
    ElementsStep(doc, dbl, pos, depth, acc, index);
    if D.ValueAt(doc, pos, dbl).None? {
      NoListAgrees(ReadElements(doc, dbl, pos, depth, acc, index), depth, false, EraseAll(acc.payload.items));
    } else if depth + Depth(D.ValueAt(doc, pos, dbl).value.v) > STACK_LIMIT {
      DeepListAgrees(ReadElements(doc, dbl, pos, depth, acc, index), depth, false, EraseAll(acc.payload.items),
        Member(Index(index), D.ValueAt(doc, pos, dbl).value.v), D.ElementsAt(doc, pos, dbl, index));
    } else {
      ElementAgrees(doc, dbl, pos, depth, acc, index);
    }
  }

  lemma ElementAgrees(doc: string, dbl: DoubleReader, pos: nat, depth: nat, acc: Value, index: nat)
    requires pos <= |doc| && depth <= STACK_LIMIT && acc.payload.Array? && D.ValueAt(doc, pos, dbl).Some?
    requires depth + Depth(D.ValueAt(doc, pos, dbl).value.v) <= STACK_LIMIT
    requires Agrees(ReadValue(doc, dbl, pos, depth, Reference(acc, Index(index))), depth, D.ValueAt(doc, pos, dbl))
    ensures ListAgrees(ReadElements(doc, dbl, pos, depth, acc, index), depth, false, EraseAll(acc.payload.items), D.ElementsAt(doc, pos, dbl, index))
    decreases |doc| - pos, 0
  {
    hide SkipComments, TokenAt, ReadValue, ReadElements, Reference, Assign, D.AfterGaps, D.ValueAt, ListAgrees, EraseAll, Put, Normal, Depth;
    var x, items := D.ValueAt(doc, pos, dbl).value, EraseAll(acc.payload.items);
    var child := ReadValue(doc, dbl, pos, depth, Reference(acc, Index(index)));
    var m, w, next := Member(Index(index), x.v), Assign(acc, Index(index), child.value), D.AfterGaps(doc, x.end);
    ElementsStep(doc, dbl, pos, depth, acc, index);
    AssignErased(acc, Index(index), child.value, Normal(x.v).payload);
    NextMark(doc, x.end);
    if D.CharAt(doc, next) == ']' {
      LastAgrees(depth, w, items, m, next + 1);
    } else if D.CharAt(doc, next) == ',' {
      ElementsAgree(doc, dbl, next + 1, depth, w, index + 1);
      ConsAgrees(ReadElements(doc, dbl, next + 1, depth, w, index + 1), depth, false, items, m, D.ElementsAt(doc, next + 1, dbl, index + 1));
    } else {
      NoListAgrees(ReadElements(doc, dbl, pos, depth, acc, index), depth, false, items);
    }
  }

  lemma NoListAgrees(r: Outcome, depth: nat, braces: bool, items: seq<Member>)
    requires !(r.Read? && r.ok)
    ensures ListAgrees(r, depth, braces, items, None)
  {
  }

  /** What follows a member. */
  lemma SeparatorsAgree(doc: string, dbl: DoubleReader, pos: nat, depth: nat, w: Value, name: string)
    requires pos <= |doc|
    ensures var next, r := D.AfterMember(doc, pos), JsonReading.AfterMember(doc, dbl, pos, depth, w, name);
            if next.None? then !(r.Read? && r.ok)
            else if next.value.closed then r == Read(true, w, next.value.end, [])
            else r == ReadMembers(doc, dbl, next.value.end, depth, w, name)
  {
    hide SkipComments, TokenAt, SkipSpaces, ReadMembers, RecoveryEnd, D.AfterBlanks, D.AfterGaps, D.CommentAt, D.AfterAny;
    BlanksAgree(doc, pos);
    GapsAgree(doc, pos);
    Tokens(doc, D.AfterBlanks(doc, pos));
    Tokens(doc, D.AfterGaps(doc, pos));
    SeparatorEnds(doc, D.AfterBlanks(doc, pos));
    SeparatorEnds(doc, D.AfterGaps(doc, pos));
    NoGap(doc, pos);
    NoMembersAtEnd(doc, dbl, depth, w, name);
  }

  /** Without a comment the two ways of skipping are one. */
  lemma NoGap(doc: string, pos: nat)
    requires pos <= |doc|
    ensures D.CommentAt(doc, D.AfterBlanks(doc, pos)).None? ==> D.AfterGaps(doc, pos) == D.AfterBlanks(doc, pos)
  {
  }

  lemma NoMembersAtEnd(doc: string, dbl: DoubleReader, depth: nat, w: Value, name: string)
    ensures var r := ReadMembers(doc, dbl, |doc|, depth, w, name); !(r.Read? && r.ok)
  {
    hide TokenAt, ReadValue, JsonReading.AfterMember, RecoveryEnd, DecodeString;
    Tokens(doc, |doc|);
    GapsAgree(doc, |doc|);
  }

  lemma MembersStep(doc: string, dbl: DoubleReader, pos: nat, depth: nat, acc: Value, name: string)
    requires pos <= |doc|
    ensures var t, r := SkipComments(doc, pos), ReadMembers(doc, dbl, pos, depth, acc, name);
            if t.kind == ObjectEnd && name == "" then r == Read(true, acc, t.end, [])
            else if t.kind != JsonScanner.StringToken || DecodeString(doc, t.start + 1, t.end - 1).Bad?
                    || ReadToken(doc, t.end).kind != MemberSeparator then !(r.Read? && r.ok)
            else
              var key := DecodeString(doc, t.start + 1, t.end - 1).s;
              var child := ReadValue(doc, dbl, ReadToken(doc, t.end).end, depth, Reference(acc, Name(key)));
              var w := Assign(acc, Name(key), child.value);
              if child.Thrown? then r.Thrown?
              else if !child.ok then !r.Thrown? && !r.ok
              else r == JsonReading.AfterMember(doc, dbl, child.next, depth, w, key)
  {
    hide SkipComments, ReadToken, DecodeString, ReadValue, JsonReading.AfterMember, RecoveryEnd, Reference, Assign;
  }

  /** The name of a member and its colon: where its value may begin. */
  function Named(doc: string, pos: nat): (r: Option<D.Piece>)
    requires pos <= |doc|
    ensures r.Some? ==> pos < r.value.end <= |doc|
  {
    var name := D.StringAt(doc, D.AfterGaps(doc, pos));
    if name.None? then None
    else
      var colon := D.AfterBlanks(doc, name.value.end);
      if D.CharAt(doc, colon) == ':' then Some(D.Piece(name.value.s, colon + 1)) else None
  }

  lemma NamesAgree(doc: string, pos: nat)
    requires pos <= |doc|
    ensures var t := SkipComments(doc, pos);
            Named(doc, pos)
              == if t.kind != JsonScanner.StringToken || DecodeString(doc, t.start + 1, t.end - 1).Bad?
                    || ReadToken(doc, t.end).kind != MemberSeparator then None
                 else Some(D.Piece(DecodeString(doc, t.start + 1, t.end - 1).s, ReadToken(doc, t.end).end))
  {
    hide SkipComments, TokenAt, SkipSpaces, DecodeString, D.AfterBlanks, D.AfterGaps, D.StringAt, D.AfterAny, D.WordAt, D.CommentAt, D.Digit;
    GapsAgree(doc, pos);
    var start := D.AfterGaps(doc, pos);
    Tokens(doc, start);
    if start < |doc| && doc[start] == '"' {
      StringToken(doc, start);
      var e := TokenAt(doc, start).end;
      BlanksAgree(doc, e);
      Tokens(doc, D.AfterBlanks(doc, e));
      SeparatorEnds(doc, D.AfterBlanks(doc, e));
    } else {
      NoString(doc, start);
    }
  }

  lemma NoString(doc: string, start: nat)
    requires start >= |doc| || doc[start] != '"'
    ensures D.StringAt(doc, start).None?
  {
  }

  /** The members of an object, by its name and what follows. */
  lemma MembersByName(doc: string, dbl: DoubleReader, pos: nat, closable: bool)
    requires pos <= |doc|
    ensures var start, list := D.AfterGaps(doc, pos), D.MembersAt(doc, pos, dbl, closable);
            if closable && D.CharAt(doc, start) == '}' then list == Some(D.DenotedList([], start + 1))
            else if Named(doc, pos).None? then list == None
            else
              var name, x := Named(doc, pos).value.s, D.ValueAt(doc, Named(doc, pos).value.end, dbl);
              if x.None? then list == None
              else
                var m, next := Member(Name(name), x.value.v), D.AfterMember(doc, x.value.end);
                if next.None? then list == None
                else if next.value.closed then list == Some(D.DenotedList([m], next.value.end))
                else list == D.Cons(m, D.MembersAt(doc, next.value.end, dbl, name == ""))
  {
    hide D.AfterGaps, D.AfterBlanks, D.StringAt, D.ValueAt, D.AfterMember;
  }

  lemma {:induction false} MembersAgree(doc: string, dbl: DoubleReader, pos: nat, depth: nat, acc: Value, name: string)
    requires pos <= |doc| && depth <= STACK_LIMIT && acc.payload.Object?
    ensures ListAgrees(ReadMembers(doc, dbl, pos, depth, acc, name), depth, true, EraseAll(acc.payload.items), D.MembersAt(doc, pos, dbl, name == ""))
    decreases |doc| - pos, 1
  {
    hide SkipComments, ReadToken, TokenAt, DecodeString, ReadValue, ReadMembers, JsonReading.AfterMember, Reference, Assign, Named;
    hide D.AfterGaps, D.MembersAt, D.ValueAt, D.AfterMember, ListAgrees, EraseAll, Put, Normal, Depth;
    var r, items := ReadMembers(doc, dbl, pos, depth, acc, name), EraseAll(acc.payload.items);
    NextMark(doc, pos);
    NamesAgree(doc, pos);
    MembersStep(doc, dbl, pos, depth, acc, name);
    MembersByName(doc, dbl, pos, name == "");
    if name == "" && D.CharAt(doc, D.AfterGaps(doc, pos)) == '}' {
      EmptyAgrees(depth, acc, D.AfterGaps(doc, pos) + 1);
    } else if Named(doc, pos).None? {
      NoListAgrees(r, depth, true, items);
    } else {
      var key, at := Named(doc, pos).value.s, Named(doc, pos).value.end;
      var cur, x := Reference(acc, Name(key)), D.ValueAt(doc, at, dbl);
      ValueAgrees(doc, dbl, at, depth, cur);
      if x.None? {
        NoListAgrees(r, depth, true, items);
      } else {
        MemberAgrees(doc, dbl, pos, depth, acc, name, key, at);
      }
    }
  }

  lemma MemberAgrees(doc: string, dbl: DoubleReader, pos: nat, depth: nat, acc: Value, name: string, key: string, at: nat)
    requires pos < at <= |doc| && depth <= STACK_LIMIT && acc.payload.Object? && D.ValueAt(doc, at, dbl).Some?
    requires var child := ReadValue(doc, dbl, at, depth, Reference(acc, Name(key)));
             var w := Assign(acc, Name(key), child.value);
             var r := ReadMembers(doc, dbl, pos, depth, acc, name);
             && Agrees(child, depth, D.ValueAt(doc, at, dbl))
             && (if child.Thrown? then r.Thrown?
                 else if !child.ok then !r.Thrown? && !r.ok
                 else r == JsonReading.AfterMember(doc, dbl, child.next, depth, w, key))
    requires var list, x := D.MembersAt(doc, pos, dbl, name == ""), D.ValueAt(doc, at, dbl).value;
             var m, next := Member(Name(key), x.v), D.AfterMember(doc, x.end);
             if next.None? then list == None
             else if next.value.closed then list == Some(D.DenotedList([m], next.value.end))
             else list == D.Cons(m, D.MembersAt(doc, next.value.end, dbl, key == ""))
    ensures ListAgrees(ReadMembers(doc, dbl, pos, depth, acc, name), depth, true, EraseAll(acc.payload.items), D.MembersAt(doc, pos, dbl, name == ""))
    decreases |doc| - pos, 0
  {
    hide ReadValue, ReadMembers, JsonReading.AfterMember, Reference, Assign, D.MembersAt, D.ValueAt, D.AfterMember, ListAgrees, EraseAll, Put, Normal, Depth;
    var r, items := ReadMembers(doc, dbl, pos, depth, acc, name), EraseAll(acc.payload.items);
    var child, x := ReadValue(doc, dbl, at, depth, Reference(acc, Name(key))), D.ValueAt(doc, at, dbl).value;
    var m, w, next := Member(Name(key), x.v), Assign(acc, Name(key), child.value), D.AfterMember(doc, x.end);
    if depth + Depth(x.v) > STACK_LIMIT {
      DeepListAgrees(r, depth, true, items, m, D.MembersAt(doc, pos, dbl, name == ""));
    } else {
      AssignErased(acc, Name(key), child.value, Normal(x.v).payload);
      SeparatorsAgree(doc, dbl, x.end, depth, w, key);
      if next.None? {
        NoListAgrees(r, depth, true, items);
      } else if next.value.closed {
        LastAgrees(depth, w, items, m, next.value.end);
      } else {
        MembersAgree(doc, dbl, next.value.end, depth, w, key);
        ConsAgrees(r, depth, true, items, m, D.MembersAt(doc, next.value.end, dbl, key == ""));
      }
    }
  }

  // ----- Parsing -----

  /** Exactly what the reader accepts: parsing succeeds if and only if the document begins
      with a value of the dialect nested no deeper than the limit. It then ends where that
      value ends and returns its normal form; a value nested deeper makes it throw. */
  lemma ParsesIff(doc: string, dbl: DoubleReader, root: Value)
    ensures var x, r := D.ValueAt(doc, 0, dbl), Parse(doc, dbl, root);
            && (r.Read? && r.ok <==> x.Some? && Depth(x.value.v) <= STACK_LIMIT)
            && (r.Read? && r.ok ==> r.next == x.value.end && Erase(r.value) == Normal(x.value.v))
            && (x.Some? && Depth(x.value.v) > STACK_LIMIT ==> r.Thrown?)
  {
    hide D.ValueAt, ReadValue, Normal, Depth, Erase;
    ValueAgrees(doc, dbl, 0, 0, root);
    ErasedIsBare(Parse(doc, dbl, root).value);
    if D.ValueAt(doc, 0, dbl).Some? {
      NormalIsBare(D.ValueAt(doc, 0, dbl).value.v);
    }
  }

  lemma ErasedIsBare(v: Value)
    ensures Erase(v) == D.Plain(Erase(v).payload)
  {
  }

  lemma NormalIsBare(v: Value)
    ensures Normal(v) == D.Plain(Normal(v).payload)
  {
  }

  // ----- Two texts -----

  /** Only a comma separates elements. */
  lemma SemicolonIsRejected(dbl: DoubleReader, root: Value)
    ensures var r := Parse("[1;2]", dbl, root); !(r.Read? && r.ok)
  {
    var doc := "[1;2]";
    hide ReadValue, Normal, Depth, D.NumberOf;
    ParsesIff(doc, dbl, root);
    assert D.AfterBlanks(doc, 0) == 0 && D.AfterBlanks(doc, 1) == 1 && D.AfterBlanks(doc, 2) == 2;
    assert D.AfterGaps(doc, 0) == 0 && D.AfterGaps(doc, 1) == 1 && D.AfterGaps(doc, 2) == 2;
    FirstLetters(doc, 1);
    assert D.AfterDigits(doc, 2) == 2 && D.AfterNumber(doc, 1) == 2;
    assert D.ElementsAt(doc, 1, dbl, 0).None?;
  }

  /** A minus sign alone is no number of RFC 8259, but the reader takes it for zero. */
  lemma MinusIsZero(dbl: DoubleReader, root: Value)
    ensures var r := Parse("-", dbl, root); r.Read? && r.ok && r.value.payload == Int(0)
  {
    var doc := "-";
    hide ReadValue;
    ParsesIff(doc, dbl, root);
    assert D.AfterBlanks(doc, 0) == 0 && D.AfterGaps(doc, 0) == 0;
    FirstLetters(doc, 0);
    assert D.AfterDigits(doc, 1) == 1 && D.AfterNumber(doc, 0) == 1;
    assert doc[0..1] == doc && doc[1..] == [];
    assert D.Positional([]) == 0;
    assert D.NumberOf(doc, dbl) == Some(Int(0));
    assert D.ValueAt(doc, 0, dbl) == Some(D.Denoted(D.Plain(Int(0)), 1));
    ErasedIsBare(Parse(doc, dbl, root).value);
  }
}
