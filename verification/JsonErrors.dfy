/**
 The one error of a failed parse is true: where it points, what it says is missing is
 missing.
 */
module JsonErrors {
  import opened Wrappers
  import opened JsonValue
  import opened JsonScanner
  import opened JsonReading
  import opened JsonRoundTrip
  import opened JsonAccepted
  import D = JsonDialect

  /** No value begins here. */
  predicate NoValue(doc: string, start: nat) {
    var c := D.CharAt(doc, start);
    && c != '{' && c != '[' && !D.Digit(c) && c != '-'
    && !D.WordAt(doc, start, "true") && !D.WordAt(doc, start, "false") && !D.WordAt(doc, start, "null")
    && (c == '"' ==> Unterminated(doc, start))
  }

  /** No quote ends the string that begins here. */
  predicate Unterminated(doc: string, start: nat) {
    start < |doc| && D.AfterQuoted(doc, start + 1) == |doc| && D.StringAt(doc, start).None?
  }

  /** What a message about a string's escape says of the characters before `extra`, in a
      string that ends at `end`. */
  predicate TrueOfEscape(doc: string, m: Message, extra: nat, end: nat) {
    && 2 <= extra <= end <= |doc|
    && match m
       case EmptyEscape => doc[extra - 1] == '\\' && extra == end
       case BadEscape => doc[extra - 2] == '\\' && doc[extra - 1] != 'u' && D.LetterEscape(doc[extra - 1]).None?
       case FourDigitsExpected => doc[extra - 2] == '\\' && doc[extra - 1] == 'u' && end - extra < 4
       case HexDigitExpected => D.HexDigit(doc[extra - 1]).None?
       case SixCharactersExpected => end - extra < 6
       case SecondEscapeExpected => doc[extra - 1] != '\\' || (doc[extra - 2] == '\\' && doc[extra - 1] != 'u')
       case _ => false
  }

  /** What an error says is so. */
  predicate True(doc: string, e: ErrorInfo, dbl: DoubleReader) {
    var start, c := e.token.start, D.CharAt(doc, e.token.start);
    && start <= e.token.end <= |doc|
    && match e.message
       case ValueExpected => NoValue(doc, start)
       case MemberNameExpected => c != '"' || Unterminated(doc, start)
       case ColonExpected => c != ':'
       case MemberEndExpected => c != '}' && c != ',' && D.CommentAt(doc, start).None?
       case ElementEndExpected => c != ']' && c != ','
       case NotANumber(text) => (D.Digit(c) || c == '-') && text == doc[start..e.token.end] && D.NumberOf(text, dbl).None?
       case m => c == '"' && e.extra.Some? && e.token.end > 0 && TrueOfEscape(doc, m, e.extra.value, e.token.end - 1)
  }

  /** A failure has one error, and that is true. */
  predicate FailsTruly(doc: string, dbl: DoubleReader, r: Outcome) {
    r.Read? && !r.ok ==> |r.errors| == 1 && True(doc, r.errors[0], dbl)
  }

  // ----- Escapes -----

  lemma {:induction false} DigitsFailTruly(doc: string, at: nat, n: nat, code: nat, end: nat)
    requires 2 <= at && at + n <= end <= |doc| && HexDigits(doc, at, n, code).BadUnit?
    ensures var r := HexDigits(doc, at, n, code); TrueOfEscape(doc, r.message, r.extra, end)
    decreases n
  {
    HexAgrees(doc[at]);
    if IsHex(doc[at]) {
      DigitsFailTruly(doc, at + 1, n - 1, code * 16 + HexValue(doc[at]), end);
    }
  }

  lemma UnitFailsTruly(doc: string, at: nat, end: nat)
    requires 2 <= at <= end <= |doc| && doc[at - 2] == '\\' && doc[at - 1] == 'u' && ReadUnit(doc, at, end).BadUnit?
    ensures var r := ReadUnit(doc, at, end); TrueOfEscape(doc, r.message, r.extra, end)
  {
    if end - at >= 4 {
      DigitsFailTruly(doc, at, 4, 0, end);
    }
  }

  lemma CodePointFailsTruly(doc: string, at: nat, end: nat)
    requires 2 <= at <= end <= |doc| && doc[at - 2] == '\\' && doc[at - 1] == 'u' && ReadCodePoint(doc, at, end).BadUnit?
    ensures var r := ReadCodePoint(doc, at, end); TrueOfEscape(doc, r.message, r.extra, end)
  {
    hide ReadUnit;
    var first := ReadUnit(doc, at, end);
    if first.BadUnit? {
      UnitFailsTruly(doc, at, end);
    } else if end - first.next >= 6 && doc[first.next] == '\\' && doc[first.next + 1] == 'u' {
      UnitFailsTruly(doc, first.next + 2, end);
    }
  }

  lemma {:induction false} StringFailsTruly(doc: string, at: nat, end: nat)
    requires 1 <= at <= end <= |doc| && DecodeString(doc, at, end).Bad?
    ensures var d := DecodeString(doc, at, end); TrueOfEscape(doc, d.message, d.extra, end)
    decreases end - at
  {
    hide ReadCodePoint, TrueOfEscape, Unescape;
    if at < end && doc[at] != '"' {
      if doc[at] != '\\' {
        StringFailsTruly(doc, at + 1, end);
      } else if at + 1 == end || (doc[at + 1] != 'u' && Unescape(doc[at + 1]).None?) {
        EscapeFailsTruly(doc, at, end);
      } else if doc[at + 1] != 'u' {
        StringFailsTruly(doc, at + 2, end);
      } else if ReadCodePoint(doc, at + 2, end).BadUnit? {
        CodePointFailsTruly(doc, at + 2, end);
      } else {
        StringFailsTruly(doc, ReadCodePoint(doc, at + 2, end).next, end);
      }
    }
  }

  lemma EscapeFailsTruly(doc: string, at: nat, end: nat)
    requires 1 <= at < end <= |doc| && doc[at] == '\\'
    ensures at + 1 == end ==> TrueOfEscape(doc, EmptyEscape, at + 1, end)
    ensures at + 1 < end && doc[at + 1] != 'u' && Unescape(doc[at + 1]).None? ==> TrueOfEscape(doc, BadEscape, at + 2, end)
  {
    if at + 1 < end {
      LettersAgree(doc[at + 1]);
    }
  }

  // ----- Values -----

  lemma NoStringToken(doc: string, pos: nat)
    requires pos <= |doc| && SkipComments(doc, pos).kind != JsonScanner.StringToken
    ensures var c := D.CharAt(doc, SkipComments(doc, pos).start); c != '"' || Unterminated(doc, SkipComments(doc, pos).start)
  {
    hide SkipComments, TokenAt, DecodeString, StringEnd, D.AfterGaps, D.StringAt;
    GapsAgree(doc, pos);
    var start := D.AfterGaps(doc, pos);
    if D.CharAt(doc, start) == '"' {
      JsonAccepted.StringToken(doc, start);
      QuoteNeverEnds(doc, start);
    }
  }

  lemma QuoteNeverEnds(doc: string, start: nat)
    requires start < |doc| && doc[start] == '"' && TokenAt(doc, start).kind != JsonScanner.StringToken
    ensures D.AfterQuoted(doc, start + 1) == |doc|
  {
    hide StringEnd, D.AfterQuoted;
    QuotedAgree(doc, start + 1);
    NeverEnds(doc, start + 1);
  }

  lemma {:induction false} NeverEnds(doc: string, pos: nat)
    requires pos <= |doc| && !StringEnd(doc, pos).ok
    ensures StringEnd(doc, pos).end == |doc|
    decreases |doc| - pos
  {
    if pos < |doc| {
      NeverEnds(doc, if doc[pos] == '\\' && pos + 1 < |doc| then pos + 2 else pos + 1);
    }
  }

  /** The one error of a scalar that cannot be read. */
  lemma ScalarFailsTruly(doc: string, dbl: DoubleReader, pos: nat, depth: nat, cur: Value)
    requires pos <= |doc| && depth < STACK_LIMIT
    requires SkipComments(doc, pos).kind != ObjectBegin && SkipComments(doc, pos).kind != ArrayBegin
    ensures FailsTruly(doc, dbl, ReadValue(doc, dbl, pos, depth, cur))
  {
    hide SkipComments, TokenAt, DecodeString, DecodeNumber, ReadMembers, ReadArray, D.AfterGaps, D.WordAt, TrueOfEscape, D.NumberOf, Unterminated;
    hide D.CommentAt, D.AfterAny, D.StringAt;
    var t := SkipComments(doc, pos);
    GapsAgree(doc, pos);
    Tokens(doc, D.AfterGaps(doc, pos));
    if t.kind == NumberToken {
      NumberMeans(Content(doc, t), dbl);
    } else if t.kind == JsonScanner.StringToken {
      if DecodeString(doc, t.start + 1, t.end - 1).Bad? {
        StringFailsTruly(doc, t.start + 1, t.end - 1);
        EscapeMessage(doc, DecodeString(doc, t.start + 1, t.end - 1).message, DecodeString(doc, t.start + 1, t.end - 1).extra, t.end - 1);
      }
    } else {
      NoStringToken(doc, pos);
    }
  }

  lemma EscapeMessage(doc: string, m: Message, extra: nat, end: nat)
    requires TrueOfEscape(doc, m, extra, end)
    ensures m.EmptyEscape? || m.BadEscape? || m.FourDigitsExpected? || m.HexDigitExpected? || m.SixCharactersExpected? || m.SecondEscapeExpected?
  {
  }

  /** Every failure, wherever it happens, reports one error, which is true. */
  lemma {:induction false} ValueFailsTruly(doc: string, dbl: DoubleReader, pos: nat, depth: nat, cur: Value)
    requires pos <= |doc|
    ensures FailsTruly(doc, dbl, ReadValue(doc, dbl, pos, depth, cur))
    decreases |doc| - pos, 0
  {
    hide SkipComments, ReadMembers, ReadElements, True, DecodeString, DecodeNumber, SkipSpaces;
    var t := SkipComments(doc, pos);
    if depth < STACK_LIMIT {
      if t.kind == ObjectBegin {
        ObjectUnfolds(doc, dbl, pos, depth, cur);
        MembersFailTruly(doc, dbl, t.end, depth + 1, Value(Object([]), t.start, cur.limit), "");
      } else if t.kind == ArrayBegin {
        ArrayUnfolds(doc, dbl, pos, depth, cur);
        ElementsFailTruly(doc, dbl, SkipSpaces(doc, t.end), depth + 1, Value(Array([]), t.start, cur.limit), 0);
      } else {
        ScalarFailsTruly(doc, dbl, pos, depth, cur);
      }
    }
  }

  lemma {:induction false} ElementsFailTruly(doc: string, dbl: DoubleReader, pos: nat, depth: nat, acc: Value, index: nat)
    requires pos <= |doc|
    ensures FailsTruly(doc, dbl, ReadElements(doc, dbl, pos, depth, acc, index))
    decreases |doc| - pos, 1
  {
    hide SkipComments, ReadValue, True, RecoveryEnd, Reference, Assign, ReadMembers, ReadArray;
    var cur := Reference(acc, Index(index));
    ValueFailsTruly(doc, dbl, pos, depth, cur);
    var child := ReadValue(doc, dbl, pos, depth, cur);
    if child.Read? && child.ok {
      var t := SkipComments(doc, child.next);
      if t.kind == ArraySeparator {
        ElementsFailTruly(doc, dbl, t.end, depth, Assign(acc, Index(index), child.value), index + 1);
      } else if t.kind != ArrayEnd {
        NoElementEnd(doc, dbl, child.next);
      }
    }
  }

  lemma NoElementEnd(doc: string, dbl: DoubleReader, pos: nat)
    requires pos <= |doc| && SkipComments(doc, pos).kind != ArraySeparator && SkipComments(doc, pos).kind != ArrayEnd
    ensures True(doc, ErrorInfo(ElementEndExpected, SkipComments(doc, pos), None), dbl)
  {
    hide SkipComments, D.AfterGaps;
    NextMark(doc, pos);
  }

  /** The errors of a member's name, of its colon, and of what follows it. */
  lemma NameFailsTruly(doc: string, dbl: DoubleReader, pos: nat)
    requires pos <= |doc|
    ensures var t := SkipComments(doc, pos);
            && (t.kind != JsonScanner.StringToken ==> True(doc, ErrorInfo(MemberNameExpected, t, None), dbl))
            && (t.kind == JsonScanner.StringToken ==>
                  var d := DecodeString(doc, t.start + 1, t.end - 1);
                  && (d.Bad? ==> True(doc, ErrorInfo(d.message, t, Some(d.extra)), dbl))
                  && (ReadToken(doc, t.end).kind != MemberSeparator ==> True(doc, ErrorInfo(ColonExpected, ReadToken(doc, t.end), None), dbl)))
  {
    hide SkipComments, TokenAt, DecodeString, SkipSpaces, D.AfterGaps, D.AfterBlanks, TrueOfEscape, Unterminated, D.WordAt, D.CommentAt, D.AfterAny;
    var t := SkipComments(doc, pos);
    if t.kind != JsonScanner.StringToken {
      NoStringToken(doc, pos);
    } else {
      GapsAgree(doc, pos);
      Tokens(doc, D.AfterGaps(doc, pos));
      BlanksAgree(doc, t.end);
      Tokens(doc, D.AfterBlanks(doc, t.end));
      if DecodeString(doc, t.start + 1, t.end - 1).Bad? {
        var d := DecodeString(doc, t.start + 1, t.end - 1);
        StringFailsTruly(doc, t.start + 1, t.end - 1);
        EscapeMessage(doc, d.message, d.extra, t.end - 1);
      }
    }
  }

  lemma NoMemberEnd(doc: string, dbl: DoubleReader, pos: nat)
    requires pos <= |doc|
    requires var k := ReadToken(doc, pos).kind; k != ObjectEnd && k != ArraySeparator && k != Comment
    ensures True(doc, ErrorInfo(MemberEndExpected, ReadToken(doc, pos), None), dbl)
  {
    hide TokenAt, SkipSpaces, D.AfterBlanks, D.CommentAt, D.AfterAny, D.WordAt;
    BlanksAgree(doc, pos);
    Tokens(doc, D.AfterBlanks(doc, pos));
  }

  lemma {:induction false} AfterFailsTruly(doc: string, dbl: DoubleReader, pos: nat, depth: nat, w: Value, name: string)
    requires pos <= |doc|
    ensures FailsTruly(doc, dbl, AfterMember(doc, dbl, pos, depth, w, name))
    decreases |doc| - pos, 2
  {
    hide SkipComments, ReadToken, ReadMembers, True, RecoveryEnd;
    var first, comma := ReadToken(doc, pos), SkipComments(doc, pos);
    if first.kind != ObjectEnd && first.kind != ArraySeparator && first.kind != Comment {
      NoMemberEnd(doc, dbl, pos);
    } else if comma.kind != ObjectEnd {
      MembersFailTruly(doc, dbl, comma.end, depth, w, name);
    }
  }

  lemma {:induction false} MembersFailTruly(doc: string, dbl: DoubleReader, pos: nat, depth: nat, acc: Value, name: string)
    requires pos <= |doc|
    ensures FailsTruly(doc, dbl, ReadMembers(doc, dbl, pos, depth, acc, name))
    decreases |doc| - pos, 1
  {
    hide SkipComments, ReadToken, DecodeString, ReadValue, AfterMember, True, RecoveryEnd, Reference, Assign, ReadArray, ReadElements;
    var t := SkipComments(doc, pos);
    NameFailsTruly(doc, dbl, pos);
    if t.kind == JsonScanner.StringToken && DecodeString(doc, t.start + 1, t.end - 1).Text? && ReadToken(doc, t.end).kind == MemberSeparator {
      var key, colon := DecodeString(doc, t.start + 1, t.end - 1).s, ReadToken(doc, t.end);
      var cur := Reference(acc, Name(key));
      ValueFailsTruly(doc, dbl, colon.end, depth, cur);
      var child := ReadValue(doc, dbl, colon.end, depth, cur);
      if child.Read? && child.ok {
        AfterFailsTruly(doc, dbl, child.next, depth, Assign(acc, Name(key), child.value), key);
      }
    }
  }

  /** The error a failed parse reports is true of the document. */
  lemma ErrorIsTrue(doc: string, dbl: DoubleReader, root: Value)
    ensures var r := Parse(doc, dbl, root);
            r.Read? && !r.ok ==> |r.errors| == 1 && True(doc, r.errors[0], dbl)
  {
    hide ReadValue, True;
    ValueFailsTruly(doc, dbl, 0, 0, root);
  }
}
