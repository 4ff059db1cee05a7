/**
 The byte ranges the reader records: nested and apart, and each a document of its own
 that parses to the same value.
 */
module JsonOffsets {
  import opened Wrappers
  import opened JsonValue
  import opened JsonOrder
  import opened Decimal
  import opened Unicode
  import opened JsonScanner
  import opened JsonReading
  import opened JsonText
  import opened JsonRoundTrip
  import opened JsonSound

  // ----- A scan sees no further than where it ends -----

  /** A part of the document. */
  predicate Cuts(doc: string, s: nat, t: nat) {
    s <= t <= |doc|
  }

  lemma CutAt(doc: string, s: nat, t: nat, pos: nat)
    requires Cuts(doc, s, t) && s <= pos
    ensures At(doc[s..t], pos - s) == if pos < t then At(doc, pos) else '\0'
  {
  }

  lemma {:induction false} CutSpaces(doc: string, s: nat, t: nat, pos: nat)
    requires Cuts(doc, s, t) && s <= pos <= |doc| && SkipSpaces(doc, pos) <= t
    ensures SkipSpaces(doc[s..t], pos - s) == SkipSpaces(doc, pos) - s
    decreases |doc| - pos
  {
    if pos < t && IsSpace(doc[pos]) {
      CutSpaces(doc, s, t, pos + 1);
    }
  }

  lemma {:induction false} CutDigits(doc: string, s: nat, t: nat, pos: nat)
    requires Cuts(doc, s, t) && s <= pos <= |doc| && SkipDigits(doc, pos) <= t
    ensures SkipDigits(doc[s..t], pos - s) == SkipDigits(doc, pos) - s
    decreases |doc| - pos
  {
    if pos < t && IsDigit(doc[pos]) {
      CutDigits(doc, s, t, pos + 1);
    }
  }

  lemma CutNumber(doc: string, s: nat, t: nat, pos: nat)
    requires Cuts(doc, s, t) && s <= pos <= |doc| && NumberEnd(doc, pos) <= t
    ensures NumberEnd(doc[s..t], pos - s) == NumberEnd(doc, pos) - s
  {
    hide SkipDigits, At;
    var whole := SkipDigits(doc, pos);
    CutDigits(doc, s, t, pos);
    CutAt(doc, s, t, whole);
    AtEnd(doc, whole);
    var fraction := whole;
    if At(doc, whole) == '.' {
      fraction := SkipDigits(doc, whole + 1);
      CutDigits(doc, s, t, whole + 1);
    }
    CutAt(doc, s, t, fraction);
    AtEnd(doc, fraction);
    CutAt(doc, s, t, fraction + 1);
    AtEnd(doc, fraction + 1);
    if At(doc, fraction) == 'e' || At(doc, fraction) == 'E' {
      var sign := At(doc, fraction + 1);
      CutDigits(doc, s, t, if sign == '+' || sign == '-' then fraction + 2 else fraction + 1);
    }
  }

  lemma AtEnd(doc: string, pos: nat)
    ensures At(doc, pos) != '\0' ==> pos < |doc|
  {
  }

  lemma {:induction false} CutString(doc: string, s: nat, t: nat, pos: nat)
    requires Cuts(doc, s, t) && s <= pos <= |doc| && StringEnd(doc, pos).end <= t
    ensures StringEnd(doc[s..t], pos - s) == StringEnd(doc, pos).(end := StringEnd(doc, pos).end - s)
    decreases |doc| - pos
  {
    if pos < |doc| && doc[pos] != '"' {
      CutString(doc, s, t, if doc[pos] == '\\' && pos + 1 < |doc| then pos + 2 else pos + 1);
    }
  }

  lemma {:induction false} CutCStyle(doc: string, s: nat, t: nat, pos: nat)
    requires Cuts(doc, s, t) && s <= pos <= |doc| && CStyleEnd(doc, pos).end <= t
    ensures CStyleEnd(doc[s..t], pos - s) == CStyleEnd(doc, pos).(end := CStyleEnd(doc, pos).end - s)
    decreases |doc| - pos
  {
    if pos < |doc| && !(doc[pos] == '*' && At(doc, pos + 1) == '/') {
      CutCStyle(doc, s, t, pos + 1);
    }
  }

  lemma {:induction false} CutCppStyle(doc: string, s: nat, t: nat, pos: nat)
    requires Cuts(doc, s, t) && s <= pos <= |doc| && CppStyleEnd(doc, pos) <= t
    ensures CppStyleEnd(doc[s..t], pos - s) == CppStyleEnd(doc, pos) - s
    decreases |doc| - pos
  {
    if pos < |doc| && doc[pos] != '\n' && doc[pos] != '\r' {
      CutCppStyle(doc, s, t, pos + 1);
    }
  }

  lemma CutComment(doc: string, s: nat, t: nat, pos: nat)
    requires Cuts(doc, s, t) && s <= pos <= |doc| && CommentEnd(doc, pos).end <= t
    ensures CommentEnd(doc[s..t], pos - s) == CommentEnd(doc, pos).(end := CommentEnd(doc, pos).end - s)
  {
    hide CStyleEnd, CppStyleEnd;
    if pos < |doc| && doc[pos] == '*' {
      CutCStyle(doc, s, t, pos + 1);
    } else if pos < |doc| && doc[pos] == '/' {
      CutCppStyle(doc, s, t, pos + 1);
    }
  }

  lemma CutWord(doc: string, s: nat, t: nat, pos: nat, rest: string)
    requires Cuts(doc, s, t) && s <= pos <= |doc| && WordEnd(doc, pos, rest).end <= t
    ensures WordEnd(doc[s..t], pos - s, rest) == WordEnd(doc, pos, rest).(end := WordEnd(doc, pos, rest).end - s)
  {
    if IsAt(doc[s..t], pos - s, rest) {
      assert IsAt(doc, pos, rest);
    }
  }

  function ShiftToken(t: Token, s: nat): Token
    requires s <= t.start <= t.end
  {
    Token(t.kind, t.start - s, t.end - s)
  }

  lemma CutTokenAt(doc: string, s: nat, t: nat, start: nat)
    requires Cuts(doc, s, t) && s <= start <= |doc| && TokenAt(doc, start).end <= t
    ensures TokenAt(doc[s..t], start - s) == ShiftToken(TokenAt(doc, start), s)
  {
    hide StringEnd, CommentEnd, NumberEnd, WordEnd;
    if start < |doc| {
      match doc[start]
      case '"' => CutString(doc, s, t, start + 1);
      case '/' => CutComment(doc, s, t, start + 1);
      case 't' => CutWord(doc, s, t, start + 1, "rue");
      case 'f' => CutWord(doc, s, t, start + 1, "alse");
      case 'n' => CutWord(doc, s, t, start + 1, "ull");
      case c => if IsDigit(c) || c == '-' { CutNumber(doc, s, t, start + 1); }
    }
  }

  lemma CutToken(doc: string, s: nat, t: nat, pos: nat)
    requires Cuts(doc, s, t) && s <= pos <= |doc| && ReadToken(doc, pos).end <= t
    ensures ReadToken(doc[s..t], pos - s) == ShiftToken(ReadToken(doc, pos), s)
  {
    hide SkipSpaces, TokenAt;
    CutSpaces(doc, s, t, pos);
    CutTokenAt(doc, s, t, SkipSpaces(doc, pos));
  }

  lemma {:induction false} CutComments(doc: string, s: nat, t: nat, pos: nat)
    requires Cuts(doc, s, t) && s <= pos <= |doc| && SkipComments(doc, pos).end <= t
    ensures SkipComments(doc[s..t], pos - s) == ShiftToken(SkipComments(doc, pos), s)
    decreases |doc| - pos
  {
    hide ReadToken;
    CutToken(doc, s, t, pos);
    if ReadToken(doc, pos).kind == Comment {
      CutComments(doc, s, t, ReadToken(doc, pos).end);
    }
  }

  lemma {:induction false} CutHex(doc: string, s: nat, t: nat, at: nat, n: nat, code: nat)
    requires Cuts(doc, s, t) && s <= at && at + n <= t && HexDigits(doc, at, n, code).Unit?
    ensures HexDigits(doc[s..t], at - s, n, code) == Unit(HexDigits(doc, at, n, code).code, at + n - s)
    decreases n
  {
    if n > 0 {
      CutHex(doc, s, t, at + 1, n - 1, code * 16 + HexValue(doc[at]));
    }
  }

  lemma CutCodePoint(doc: string, s: nat, t: nat, at: nat, end: nat)
    requires Cuts(doc, s, t) && s <= at <= end <= t && ReadCodePoint(doc, at, end).Unit?
    ensures var r := ReadCodePoint(doc, at, end);
            ReadCodePoint(doc[s..t], at - s, end - s) == Unit(r.code, r.next - s)
  {
    hide HexDigits, Combine;
    CutHex(doc, s, t, at, 4, 0);
    var first := ReadUnit(doc, at, end);
    if IsHighSurrogate(first.code) {
      CutHex(doc, s, t, first.next + 2, 4, 0);
    }
  }

  lemma {:induction false} CutText(doc: string, s: nat, t: nat, at: nat, end: nat)
    requires Cuts(doc, s, t) && s <= at <= end <= t && DecodeString(doc, at, end).Text?
    ensures DecodeString(doc[s..t], at - s, end - s) == DecodeString(doc, at, end)
    decreases end - at
  {
    hide ReadCodePoint, CodePointToUTF8, Unescape;
    if at < end && doc[at] != '"' {
      if doc[at] != '\\' {
        CutText(doc, s, t, at + 1, end);
      } else if doc[at + 1] == 'u' {
        CutCodePoint(doc, s, t, at + 2, end);
        CutText(doc, s, t, ReadCodePoint(doc, at + 2, end).next, end);
      } else {
        CutText(doc, s, t, at + 2, end);
      }
    }
  }

  // ----- Reading a part gives the same value -----

  /** A successful reading of the part from `s` on, of the same content. */
  ghost predicate SameRead(q: Outcome, r: Outcome, s: nat) {
    r.Read? && r.ok ==> q.Read? && q.ok && q.next == r.next - s && Erase(q.value) == Erase(r.value)
  }

  ghost predicate EndsBy(r: Outcome, t: nat) {
    r.Read? && r.ok && r.next <= t
  }

  ghost predicate SameContainers(v: Value, w: Value) {
    IsContainer(v.payload) && IsContainer(w.payload) && Erase(v) == Erase(w)
  }

  lemma AssignSame(v: Value, w: Value, key: Key, x: Value, y: Value)
    requires SameContainers(v, w) && Erase(x) == Erase(y)
    ensures SameContainers(Assign(v, key, x), Assign(w, key, y))
    ensures Assign(v, key, x).payload.Object? == v.payload.Object?
  {
    ErasePut(v.payload.items, key, x);
    ErasePut(w.payload.items, key, y);
  }

  lemma EmptySame(start: nat, limit: nat, start': nat, limit': nat)
    ensures SameContainers(Value(Object([]), start, limit), Value(Object([]), start', limit'))
    ensures SameContainers(Value(Array([]), start, limit), Value(Array([]), start', limit'))
  {
  }

  lemma LimitSame(q: Outcome, r: Outcome, s: nat)
    requires SameRead(q, r, s)
    ensures SameRead(Limit(q), Limit(r), s)
  {
  }

  lemma CutContent(doc: string, s: nat, t: nat, token: Token)
    requires Cuts(doc, s, t) && s <= token.start <= token.end <= t
    ensures Content(doc[s..t], ShiftToken(token, s)) == Content(doc, token)
  {
    var a, b := doc[s..t][token.start - s..token.end - s], doc[token.start..token.end];
    assert |a| == |b| && forall k :: 0 <= k < |a| ==> a[k] == b[k];
  }

  lemma ScalarSame(doc: string, dbl: DoubleReader, s: nat, t: nat, token: Token)
    requires Cuts(doc, s, t) && s <= token.start <= token.end <= t && (token.kind == StringToken ==> token.start + 2 <= token.end)
    requires ScalarOf(doc, dbl, token).Some?
    ensures ScalarOf(doc[s..t], dbl, ShiftToken(token, s)) == ScalarOf(doc, dbl, token)
  {
    hide DecodeString, DecodeNumber, Content;
    CutContent(doc, s, t, token);
    if token.kind == StringToken {
      CutText(doc, s, t, token.start + 1, token.end - 1);
    }
  }

  /** A value read successfully is a scalar token's, or a container's. */
  lemma ReadUnfolds(doc: string, dbl: DoubleReader, pos: nat, depth: nat, v: Value)
    requires pos <= |doc|
    ensures var r, t := ReadValue(doc, dbl, pos, depth, v), SkipComments(doc, pos);
            r.Read? && r.ok ==>
              && depth < STACK_LIMIT && t.end <= r.next
              && (t.kind == ObjectBegin || t.kind == ArrayBegin || (ScalarOf(doc, dbl, t).Some? && r.next == t.end))
  {
    hide SkipComments, ReadMembers, ReadArray, DecodeString, DecodeNumber, Content;
  }

  lemma {:induction false} CutRead(doc: string, dbl: DoubleReader, s: nat, t: nat, pos: nat, depth: nat, d: nat, v: Value, w: Value)
    requires Cuts(doc, s, t) && s <= pos <= |doc| && d <= depth && EndsBy(ReadValue(doc, dbl, pos, depth, v), t)
    ensures pos <= t && SameRead(ReadValue(doc[s..t], dbl, pos - s, d, w), ReadValue(doc, dbl, pos, depth, v), s)
    decreases |doc| - pos, 0
  {
    hide ReadValue, SkipComments, ReadMembers, ReadArray, ScalarOf, Limit, Erase;
    var token := SkipComments(doc, pos);
    ReadUnfolds(doc, dbl, pos, depth, v);
    CutComments(doc, s, t, pos);
    var start, start' := Value(Object([]), token.start, v.limit), Value(Object([]), token.start - s, w.limit);
    if token.kind == ObjectBegin {
      ObjectUnfolds(doc, dbl, pos, depth, v);
      ObjectUnfolds(doc[s..t], dbl, pos - s, d, w);
      EmptySame(token.start, v.limit, token.start - s, w.limit);
      CutMembers(doc, dbl, s, t, token.end, depth + 1, d + 1, start, start', "");
      LimitSame(ReadMembers(doc[s..t], dbl, token.end - s, d + 1, start', ""), ReadMembers(doc, dbl, token.end, depth + 1, start, ""), s);
    } else if token.kind == ArrayBegin {
      ArrayUnfolds(doc, dbl, pos, depth, v);
      ArrayUnfolds(doc[s..t], dbl, pos - s, d, w);
      EmptySame(token.start, v.limit, token.start - s, w.limit);
      start, start' := start.(payload := Array([])), start'.(payload := Array([]));
      CutArray(doc, dbl, s, t, token.end, depth + 1, d + 1, start, start');
      LimitSame(ReadArray(doc[s..t], dbl, token.end - s, d + 1, start'), ReadArray(doc, dbl, token.end, depth + 1, start), s);
    } else {
      ScalarSame(doc, dbl, s, t, token);
      ReadsScalarToken(doc, dbl, pos, depth, v);
      ReadsScalarToken(doc[s..t], dbl, pos - s, d, w);
      EraseScalar(ScalarOf(doc, dbl, token).value, token.start, token.end, token.start - s, token.end - s, doc, dbl, token);
    }
  }

  lemma EraseScalar(p: Payload, start: nat, limit: nat, start': nat, limit': nat, doc: string, dbl: DoubleReader, t: Token)
    requires t.start <= t.end <= |doc| && (t.kind == StringToken ==> t.start + 2 <= t.end) && ScalarOf(doc, dbl, t) == Some(p)
    ensures Erase(Value(p, start, limit)) == Erase(Value(p, start', limit'))
  {
    hide DecodeString, DecodeInteger, Content;
  }

  /** How an object that is read successfully goes on: it ends, or it has a member and
      what follows that. */
  lemma MembersUnfold(doc: string, dbl: DoubleReader, pos: nat, depth: nat, v: Value, name: string) returns (key: string, at: nat)
    requires pos <= |doc|
    requires ReadMembers(doc, dbl, pos, depth, v, name).Read? && ReadMembers(doc, dbl, pos, depth, v, name).ok
    ensures var r, t := ReadMembers(doc, dbl, pos, depth, v, name), SkipComments(doc, pos);
            if t.kind == ObjectEnd && name == "" then r == Read(true, v, t.end, [])
            else
              && t.kind == StringToken && DecodeString(doc, t.start + 1, t.end - 1) == Text(key)
              && ReadToken(doc, t.end).kind == MemberSeparator && ReadToken(doc, t.end).end == at
              && pos < at <= |doc|
              && var child := ReadValue(doc, dbl, at, depth, Reference(v, Name(key)));
              && child.Read? && child.ok
              && r == AfterMember(doc, dbl, child.next, depth, Assign(v, Name(key), child.value), key)
  {
    hide SkipComments, ReadToken, DecodeString, ReadValue, AfterMember, RecoveryEnd, Reference, Assign;
    var t := SkipComments(doc, pos);
    var d := if t.kind == StringToken then DecodeString(doc, t.start + 1, t.end - 1) else Text("");
    key := if d.Text? then d.s else "";
    at := ReadToken(doc, t.end).end;
  }

  lemma AfterUnfolds(doc: string, dbl: DoubleReader, pos: nat, depth: nat, v: Value, name: string)
    requires pos <= |doc|
    requires AfterMember(doc, dbl, pos, depth, v, name).Read? && AfterMember(doc, dbl, pos, depth, v, name).ok
    ensures var r, first, comma := AfterMember(doc, dbl, pos, depth, v, name), ReadToken(doc, pos), SkipComments(doc, pos);
            && (first.kind == ObjectEnd || first.kind == ArraySeparator || first.kind == Comment)
            && pos < comma.end && first.end <= comma.end
            && r == if comma.kind == ObjectEnd then Read(true, v, comma.end, []) else ReadMembers(doc, dbl, comma.end, depth, v, name)
  {
    hide TokenAt, SkipSpaces, ReadMembers, RecoveryEnd;
  }

  lemma {:induction false} CutMembers(doc: string, dbl: DoubleReader, s: nat, t: nat, pos: nat, depth: nat, d: nat, v: Value, w: Value, name: string)
    requires Cuts(doc, s, t) && s <= pos <= |doc| && d <= depth && EndsBy(ReadMembers(doc, dbl, pos, depth, v, name), t)
    requires SameContainers(v, w)
    ensures pos <= t && SameRead(ReadMembers(doc[s..t], dbl, pos - s, d, w, name), ReadMembers(doc, dbl, pos, depth, v, name), s)
    decreases |doc| - pos, 1
  {
    hide ReadValue, SkipComments, ReadToken, ReadMembers, AfterMember, DecodeString, Reference, Assign, Erase;
    var token := SkipComments(doc, pos);
    var key, at := MembersUnfold(doc, dbl, pos, depth, v, name);
    if token.kind == ObjectEnd && name == "" {
      CutComments(doc, s, t, pos);
      NoMembers(doc[s..t], dbl, pos - s, d, w);
    } else {
      var child := ReadValue(doc, dbl, at, depth, Reference(v, Name(key)));
      var next := Assign(v, Name(key), child.value);
      CutRead(doc, dbl, s, t, at, depth, d, Reference(v, Name(key)), Reference(w, Name(key)));
      CutToken(doc, s, t, token.end);
      CutComments(doc, s, t, pos);
      CutText(doc, s, t, token.start + 1, token.end - 1);
      MemberUnfolds(doc[s..t], dbl, pos - s, d, w, name, key);
      var other := ReadValue(doc[s..t], dbl, at - s, d, Reference(w, Name(key)));
      AssignSame(v, w, Name(key), child.value, other.value);
      CutAfter(doc, dbl, s, t, child.next, depth, d, next, Assign(w, Name(key), other.value), key);
    }
  }

  lemma {:induction false} CutAfter(doc: string, dbl: DoubleReader, s: nat, t: nat, pos: nat, depth: nat, d: nat, v: Value, w: Value, name: string)
    requires Cuts(doc, s, t) && s <= pos <= |doc| && d <= depth && EndsBy(AfterMember(doc, dbl, pos, depth, v, name), t)
    requires SameContainers(v, w)
    ensures pos <= t && SameRead(AfterMember(doc[s..t], dbl, pos - s, d, w, name), AfterMember(doc, dbl, pos, depth, v, name), s)
    decreases |doc| - pos, 2
  {
    hide SkipComments, ReadToken, ReadMembers, Erase;
    AfterUnfolds(doc, dbl, pos, depth, v, name);
    var comma := SkipComments(doc, pos);
    if comma.kind != ObjectEnd {
      CutMembers(doc, dbl, s, t, comma.end, depth, d, v, w, name);
    }
    CutComments(doc, s, t, pos);
    CutToken(doc, s, t, pos);
  }

  /** How an array that is read successfully goes on after an element. */
  lemma ElementsUnfold(doc: string, dbl: DoubleReader, pos: nat, depth: nat, v: Value, index: nat)
    requires pos <= |doc|
    requires ReadElements(doc, dbl, pos, depth, v, index).Read? && ReadElements(doc, dbl, pos, depth, v, index).ok
    ensures var r, child := ReadElements(doc, dbl, pos, depth, v, index), ReadValue(doc, dbl, pos, depth, Reference(v, Index(index)));
            && child.Read? && child.ok
            && var t, w := SkipComments(doc, child.next), Assign(v, Index(index), child.value);
            && (t.kind == ArrayEnd || t.kind == ArraySeparator) && pos < t.end <= |doc|
            && r == if t.kind == ArrayEnd then Read(true, w, t.end, []) else ReadElements(doc, dbl, t.end, depth, w, index + 1)
  {
    hide SkipComments, ReadValue, RecoveryEnd, Reference, Assign;
  }

  /** An element followed by the same token. */
  lemma ElementsFold(doc: string, dbl: DoubleReader, pos: nat, depth: nat, v: Value, index: nat)
    requires pos <= |doc|
    requires var child := ReadValue(doc, dbl, pos, depth, Reference(v, Index(index)));
             && child.Read? && child.ok
             && (SkipComments(doc, child.next).kind == ArrayEnd || SkipComments(doc, child.next).kind == ArraySeparator)
    ensures var r, child := ReadElements(doc, dbl, pos, depth, v, index), ReadValue(doc, dbl, pos, depth, Reference(v, Index(index)));
            var t, w := SkipComments(doc, child.next), Assign(v, Index(index), child.value);
            r == if t.kind == ArrayEnd then Read(true, w, t.end, []) else ReadElements(doc, dbl, t.end, depth, w, index + 1)
  {
    hide SkipComments, ReadValue, RecoveryEnd, Reference, Assign;
  }

  lemma {:induction false} CutElements(doc: string, dbl: DoubleReader, s: nat, t: nat, pos: nat, depth: nat, d: nat, v: Value, w: Value, index: nat)
    requires Cuts(doc, s, t) && s <= pos <= |doc| && d <= depth && EndsBy(ReadElements(doc, dbl, pos, depth, v, index), t)
    requires SameContainers(v, w)
    ensures pos <= t && SameRead(ReadElements(doc[s..t], dbl, pos - s, d, w, index), ReadElements(doc, dbl, pos, depth, v, index), s)
    decreases |doc| - pos, 1
  {
    hide ReadValue, SkipComments, ReadElements, Reference, Assign, Erase;
    ElementsUnfold(doc, dbl, pos, depth, v, index);
    var key := Index(index);
    var child := ReadValue(doc, dbl, pos, depth, Reference(v, key));
    var token, next := SkipComments(doc, child.next), Assign(v, key, child.value);
    CutComments(doc, s, t, child.next);
    CutRead(doc, dbl, s, t, pos, depth, d, Reference(v, key), Reference(w, key));
    ElementsFold(doc[s..t], dbl, pos - s, d, w, index);
    var other := ReadValue(doc[s..t], dbl, pos - s, d, Reference(w, key));
    AssignSame(v, w, key, child.value, other.value);
    if token.kind != ArrayEnd {
      CutElements(doc, dbl, s, t, token.end, depth, d, next, Assign(w, key, other.value), index + 1);
    }
  }

  lemma {:induction false} CutArray(doc: string, dbl: DoubleReader, s: nat, t: nat, pos: nat, depth: nat, d: nat, v: Value, w: Value)
    requires Cuts(doc, s, t) && s <= pos <= |doc| && d <= depth && EndsBy(ReadArray(doc, dbl, pos, depth, v), t)
    requires SameContainers(v, w)
    ensures pos <= t && SameRead(ReadArray(doc[s..t], dbl, pos - s, d, w), ReadArray(doc, dbl, pos, depth, v), s)
    decreases |doc| - pos, 2
  {
    hide ReadArray, ReadElements, SkipSpaces, Erase, At;
    ArrayBody(doc, dbl, pos, depth, v);
    var start := SkipSpaces(doc, pos);
    if At(doc, start) != ']' {
      CutElements(doc, dbl, s, t, start, depth, d, v, w, 0);
    }
    CutSpaces(doc, s, t, pos);
    ArrayBody(doc[s..t], dbl, pos - s, d, w);
    CutAt(doc, s, t, start);
  }

  // ----- Ranges nest, stay apart, and parse alone -----

  /** The text of the value's range has no space or comment at its ends and is a document
      that parses, whole, to its content. */
  ghost predicate ParsesAlone(doc: string, dbl: DoubleReader, v: Value) {
    && v.start < v.limit <= |doc| && !IsSpace(doc[v.start]) && doc[v.start] != '/'
    && var r := Parse(doc[v.start..v.limit], dbl, NULL_VALUE);
    r.Read? && r.ok && r.next == v.limit - v.start && Erase(r.value) == Erase(v)
  }

  predicate Apart(v: Value, w: Value) {
    v.limit <= w.start || w.limit <= v.start
  }

  /** Every value inside parses alone, and members lie between their container's
      brackets, apart from one another. */
  ghost predicate OffsetsFaithful(doc: string, dbl: DoubleReader, v: Value) {
    && ParsesAlone(doc, dbl, v)
    && (IsContainer(v.payload) ==> ItemsFaithful(doc, dbl, v.payload.items, v.start + 1, v.limit - 1))
  }

  ghost predicate ItemsFaithful(doc: string, dbl: DoubleReader, items: seq<Member>, lo: int, hi: int) {
    && (forall m :: m in items ==> lo <= m.value.start && m.value.limit <= hi && MemberFaithful(doc, dbl, m))
    && (forall m, n :: m in items && n in items && m.key != n.key ==> Apart(m.value, n.value))
  }

  ghost predicate MemberFaithful(doc: string, dbl: DoubleReader, m: Member) {
    OffsetsFaithful(doc, dbl, m.value)
  }

  lemma {:induction false} StartsAgain(doc: string, pos: nat)
    requires pos <= |doc|
    ensures SkipComments(doc, SkipComments(doc, pos).start) == SkipComments(doc, pos)
    decreases |doc| - pos
  {
    hide TokenAt, SkipSpaces;
    var t := ReadToken(doc, pos);
    if t.kind == Comment {
      StartsAgain(doc, t.end);
    } else {
      SkipSpacesTwice(doc, pos);
    }
  }

  /** Reading from a value's own start makes no difference. */
  lemma ReadsFromItsStart(doc: string, dbl: DoubleReader, pos: nat, depth: nat, v: Value)
    requires pos <= |doc| && depth < STACK_LIMIT
    ensures ReadValue(doc, dbl, SkipComments(doc, pos).start, depth, v) == ReadValue(doc, dbl, pos, depth, v)
  {
    hide SkipComments, ReadMembers, ReadArray, DecodeString, DecodeNumber, Content, Limit;
    StartsAgain(doc, pos);
  }

  lemma {:induction false} NotSpaceAt(doc: string, pos: nat)
    requires pos <= |doc| && SkipSpaces(doc, pos) < |doc|
    ensures !IsSpace(doc[SkipSpaces(doc, pos)])
    decreases |doc| - pos
  {
    if IsSpace(doc[pos]) {
      NotSpaceAt(doc, pos + 1);
    }
  }

  lemma {:induction false} TokenIsVisible(doc: string, pos: nat)
    requires pos <= |doc| && SkipComments(doc, pos).start < |doc| && SkipComments(doc, pos).kind != ErrorToken
    ensures var c := doc[SkipComments(doc, pos).start]; !IsSpace(c) && c != '/'
    decreases |doc| - pos
  {
    hide SkipSpaces, CommentEnd;
    var t := ReadToken(doc, pos);
    if t.kind == Comment {
      TokenIsVisible(doc, t.end);
    } else {
      NotSpaceAt(doc, pos);
    }
  }

  lemma ReadIsVisible(doc: string, dbl: DoubleReader, pos: nat, depth: nat, v: Value)
    requires pos <= |doc| && ReadValue(doc, dbl, pos, depth, v).Read? && ReadValue(doc, dbl, pos, depth, v).ok
    requires SkipComments(doc, pos).start < |doc|
    ensures var c := doc[SkipComments(doc, pos).start]; !IsSpace(c) && c != '/'
  {
    hide SkipComments, ReadMembers, ReadArray, DecodeString, DecodeNumber, Content, Limit;
    TokenIsVisible(doc, pos);
  }

  lemma ReadParsesAlone(doc: string, dbl: DoubleReader, pos: nat, depth: nat, v: Value)
    requires pos <= |doc| && ReadValue(doc, dbl, pos, depth, v).Read? && ReadValue(doc, dbl, pos, depth, v).ok
    requires var r := ReadValue(doc, dbl, pos, depth, v); r.value.start == SkipComments(doc, pos).start < r.next == r.value.limit
    ensures ParsesAlone(doc, dbl, ReadValue(doc, dbl, pos, depth, v).value)
  {
    hide SkipComments, ReadValue, Erase;
    var r, s := ReadValue(doc, dbl, pos, depth, v), SkipComments(doc, pos).start;
    ReadUnfolds(doc, dbl, pos, depth, v);
    ReadIsVisible(doc, dbl, pos, depth, v);
    ReadsFromItsStart(doc, dbl, pos, depth, v);
    CutRead(doc, dbl, s, r.next, s, depth, 0, v, NULL_VALUE);
  }

  lemma {:induction false} PutMembers(items: seq<Member>, key: Key, v: Value)
    requires Sorted(items) && AllOfKind(items, key)
    ensures forall m :: m in Put(items, key, v) ==> m == Member(key, v) || (m in items && m.key != key)
  {
    if items != [] {
      TailIsSorted(items);
      PutMembers(items[1..], key, v);
      KeyTrichotomy(key, items[0].key);
      forall m | m in Put(items, key, v)
        ensures m == Member(key, v) || (m in items && m.key != key)
      {
        if KeyLess(key, items[0].key) && m in items && m != items[0] {
          assert m in items[1..];
          KeyLessTransitive(key, items[0].key, m.key);
          KeyTrichotomy(key, m.key);
        }
      }
    }
  }

  /** A container being read: in order, and faithful so far. */
  ghost predicate Partial(doc: string, dbl: DoubleReader, v: Value, lo: nat, hi: nat) {
    SoundContainer(v) && lo == v.start + 1 && ItemsFaithful(doc, dbl, v.payload.items, lo, hi)
  }

  lemma AssignKeepsPartial(doc: string, dbl: DoubleReader, v: Value, key: Key, x: Value, lo: nat, pos: nat, end: nat)
    requires Partial(doc, dbl, v, lo, pos) && lo <= pos <= end && Sound(x) && key.Name? == v.payload.Object?
    requires OffsetsFaithful(doc, dbl, x) && pos <= x.start && x.limit <= end
    ensures Partial(doc, dbl, Assign(v, key, x), lo, end) && Assign(v, key, x).payload.Object? == v.payload.Object?
  {
    hide OffsetsFaithful, Put;
    AssignIsSound(v, key, x);
    hide Sound;
    KindsFit(v, key);
    PutMembers(v.payload.items, key, x);
    var items, more := v.payload.items, Put(v.payload.items, key, x);
    forall m | m in more
      ensures lo <= m.value.start && m.value.limit <= end && MemberFaithful(doc, dbl, m)
    {
      assert m == Member(key, x) || MemberFaithful(doc, dbl, m);
    }
  }

  lemma KindsFit(v: Value, key: Key)
    requires SoundContainer(v) && key.Name? == v.payload.Object?
    ensures Sorted(v.payload.items) && AllOfKind(v.payload.items, key)
  {
  }

  /** What a successful reading leaves: a faithful value that ends where reading does. */
  ghost predicate FaithfulOutcome(doc: string, dbl: DoubleReader, pos: nat, r: Outcome) {
    r.Read? && r.ok ==> pos <= r.value.start && r.value.limit == r.next && OffsetsFaithful(doc, dbl, r.value)
  }

  ghost predicate PartialOutcome(doc: string, dbl: DoubleReader, v: Value, r: Outcome) {
    r.Read? && r.ok ==>
      && r.next > 0 && v.start < r.next
      && Partial(doc, dbl, r.value, v.start + 1, r.next - 1) && r.value.start == v.start
  }

  lemma EmptyIsPartial(doc: string, dbl: DoubleReader, start: nat, limit: nat, hi: nat)
    ensures Partial(doc, dbl, Value(Object([]), start, limit), start + 1, hi)
    ensures Partial(doc, dbl, Value(Array([]), start, limit), start + 1, hi)
  {
    EmptyIsSound(start, limit);
  }

  lemma PartialGrows(doc: string, dbl: DoubleReader, v: Value, lo: nat, hi: nat, end: nat)
    requires Partial(doc, dbl, v, lo, hi) && hi <= end
    ensures Partial(doc, dbl, v, lo, end)
  {
    hide MemberFaithful, Sound;
  }

  /** The value of a container, once its end is set. */
  lemma ContainerFaithful(doc: string, dbl: DoubleReader, pos: nat, r: Outcome, v: Value)
    requires PartialOutcome(doc, dbl, v, r) && r.Read? && r.ok && pos <= v.start
    requires ParsesAlone(doc, dbl, Limit(r).value)
    ensures FaithfulOutcome(doc, dbl, pos, Limit(r))
  {
    hide ParsesAlone, MemberFaithful, Sound;
  }

  lemma ScalarFaithful(doc: string, dbl: DoubleReader, v: Value)
    requires ParsesAlone(doc, dbl, v) && !IsContainer(v.payload)
    ensures OffsetsFaithful(doc, dbl, v)
  {
    hide ParsesAlone;
  }

  lemma ScalarsAreScalars(doc: string, dbl: DoubleReader, t: Token)
    requires t.start <= t.end <= |doc| && (t.kind == StringToken ==> t.start + 2 <= t.end) && ScalarOf(doc, dbl, t).Some?
    ensures !IsContainer(ScalarOf(doc, dbl, t).value) && t.kind != EndOfStream
  {
    hide DecodeString, DecodeInteger, Content;
  }

  lemma {:induction false} ReadIsFaithful(doc: string, dbl: DoubleReader, pos: nat, depth: nat, v: Value)
    requires pos <= |doc|
    ensures FaithfulOutcome(doc, dbl, pos, ReadValue(doc, dbl, pos, depth, v))
    decreases |doc| - pos, 0
  {
    hide ReadValue, SkipComments, ReadMembers, ReadArray, ScalarOf, Partial, OffsetsFaithful, ParsesAlone;
    var r, t := ReadValue(doc, dbl, pos, depth, v), SkipComments(doc, pos);
    ReadUnfolds(doc, dbl, pos, depth, v);
    if r.Read? && r.ok {
      if t.kind == ObjectBegin {
        var start := Value(Object([]), t.start, v.limit);
        ObjectUnfolds(doc, dbl, pos, depth, v);
        EmptyIsPartial(doc, dbl, t.start, v.limit, t.end);
        MembersAreFaithful(doc, dbl, t.end, depth + 1, start, "");
        ReadParsesAlone(doc, dbl, pos, depth, v);
        ContainerFaithful(doc, dbl, pos, ReadMembers(doc, dbl, t.end, depth + 1, start, ""), start);
      } else if t.kind == ArrayBegin {
        var start := Value(Array([]), t.start, v.limit);
        ArrayUnfolds(doc, dbl, pos, depth, v);
        EmptyIsPartial(doc, dbl, t.start, v.limit, t.end);
        ArrayIsFaithful(doc, dbl, t.end, depth + 1, start);
        ReadParsesAlone(doc, dbl, pos, depth, v);
        ContainerFaithful(doc, dbl, pos, ReadArray(doc, dbl, t.end, depth + 1, start), start);
      } else {
        ReadsScalarToken(doc, dbl, pos, depth, v);
        ScalarsAreScalars(doc, dbl, t);
        ReadParsesAlone(doc, dbl, pos, depth, v);
        ScalarFaithful(doc, dbl, r.value);
      }
    }
  }

  lemma {:induction false} MembersAreFaithful(doc: string, dbl: DoubleReader, pos: nat, depth: nat, v: Value, name: string)
    requires v.start < pos <= |doc| && Partial(doc, dbl, v, v.start + 1, pos) && v.payload.Object?
    ensures PartialOutcome(doc, dbl, v, ReadMembers(doc, dbl, pos, depth, v, name))
    decreases |doc| - pos, 1
  {
    hide ReadValue, SkipComments, ReadToken, ReadMembers, AfterMember, DecodeString, Reference, Assign, Sound, OffsetsFaithful, ItemsFaithful;
    var r, t := ReadMembers(doc, dbl, pos, depth, v, name), SkipComments(doc, pos);
    if r.Read? && r.ok {
      var key, at := MembersUnfold(doc, dbl, pos, depth, v, name);
      if t.kind == ObjectEnd && name == "" {
        PartialGrows(doc, dbl, v, v.start + 1, pos, t.end - 1);
      } else {
        var child := ReadValue(doc, dbl, at, depth, Reference(v, Name(key)));
        ReferenceIsSound(v, Name(key));
        ReadIsSound(doc, dbl, at, depth, Reference(v, Name(key)));
        ReadIsFaithful(doc, dbl, at, depth, Reference(v, Name(key)));
        AssignKeepsPartial(doc, dbl, v, Name(key), child.value, v.start + 1, pos, child.next);
        NextIsFaithful(doc, dbl, child.next, depth, Assign(v, Name(key), child.value), key);
      }
    }
  }

  lemma {:induction false} NextIsFaithful(doc: string, dbl: DoubleReader, pos: nat, depth: nat, v: Value, name: string)
    requires v.start < pos <= |doc| && Partial(doc, dbl, v, v.start + 1, pos) && v.payload.Object?
    ensures PartialOutcome(doc, dbl, v, AfterMember(doc, dbl, pos, depth, v, name))
    decreases |doc| - pos, 2
  {
    hide SkipComments, ReadToken, ReadMembers, AfterMember, Partial;
    var r, comma := AfterMember(doc, dbl, pos, depth, v, name), SkipComments(doc, pos);
    if r.Read? && r.ok {
      AfterUnfolds(doc, dbl, pos, depth, v, name);
      PartialGrows(doc, dbl, v, v.start + 1, pos, comma.end - 1);
      PartialGrows(doc, dbl, v, v.start + 1, pos, comma.end);
      if comma.kind != ObjectEnd {
        MembersAreFaithful(doc, dbl, comma.end, depth, v, name);
      }
    }
  }

  lemma {:induction false} ArrayIsFaithful(doc: string, dbl: DoubleReader, pos: nat, depth: nat, v: Value)
    requires v.start < pos <= |doc| && Partial(doc, dbl, v, v.start + 1, pos) && v.payload.Array?
    ensures PartialOutcome(doc, dbl, v, ReadArray(doc, dbl, pos, depth, v))
    decreases |doc| - pos, 2
  {
    hide ReadArray, ReadElements, SkipSpaces, Partial;
    ArrayBody(doc, dbl, pos, depth, v);
    PartialGrows(doc, dbl, v, v.start + 1, pos, SkipSpaces(doc, pos));
    ElementsAreFaithful(doc, dbl, SkipSpaces(doc, pos), depth, v, 0);
  }

  lemma {:induction false} ElementsAreFaithful(doc: string, dbl: DoubleReader, pos: nat, depth: nat, v: Value, index: nat)
    requires v.start < pos <= |doc| && Partial(doc, dbl, v, v.start + 1, pos) && v.payload.Array?
    ensures PartialOutcome(doc, dbl, v, ReadElements(doc, dbl, pos, depth, v, index))
    decreases |doc| - pos, 1
  {
    hide ReadValue, SkipComments, ReadElements, Reference, Assign, Sound, OffsetsFaithful, ItemsFaithful;
    var r, key := ReadElements(doc, dbl, pos, depth, v, index), Index(index);
    if r.Read? && r.ok {
      ElementsUnfold(doc, dbl, pos, depth, v, index);
      var child := ReadValue(doc, dbl, pos, depth, Reference(v, key));
      ReferenceIsSound(v, key);
      ReadIsSound(doc, dbl, pos, depth, Reference(v, key));
      ReadIsFaithful(doc, dbl, pos, depth, Reference(v, key));
      AssignKeepsPartial(doc, dbl, v, key, child.value, v.start + 1, pos, child.next);
      var w, t := Assign(v, key, child.value), SkipComments(doc, child.next);
      PartialGrows(doc, dbl, w, v.start + 1, child.next, t.end - 1);
      PartialGrows(doc, dbl, w, v.start + 1, child.next, t.end);
      if t.kind != ArrayEnd {
        ElementsAreFaithful(doc, dbl, t.end, depth, w, index + 1);
      }
    }
  }

  /** After a successful parse every recorded range is faithful. */
  lemma ParsedOffsetsAreFaithful(doc: string, dbl: DoubleReader, root: Value)
    requires Parse(doc, dbl, root).Read? && Parse(doc, dbl, root).ok
    ensures OffsetsFaithful(doc, dbl, Parse(doc, dbl, root).value)
  {
    ReadIsFaithful(doc, dbl, 0, 0, root);
  }
}
