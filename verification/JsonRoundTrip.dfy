/**
 Any text of a value reads back as the value: however its strings and numbers are spelled
 and whatever space stands between its lexemes; the depth limit is hit exactly by values
 nested too deeply.
 */
module JsonRoundTrip {
  import opened Wrappers
  import opened JsonValue
  import opened JsonOrder
  import opened Decimal
  import opened JsonScanner
  import opened JsonStrings
  import opened JsonReading
  import opened JsonText
  import opened JsonGrammar

  // ----- Lexemes as the scanner sees them -----

  function KindOfLexeme(l: Lexeme): (k: Kind)
    ensures k != Comment
  {
    match l
    case Punct(c) =>
      (match c
       case '{' => ObjectBegin
       case '}' => ObjectEnd
       case '[' => ArrayBegin
       case ']' => ArrayEnd
       case ',' => ArraySeparator
       case ':' => MemberSeparator
       case _ => ErrorToken)
    case NullWord => NullToken
    case TrueWord => TrueToken
    case FalseWord => FalseToken
    case RealText(_, _) => NumberToken
    case Number(_) => NumberToken
    case Quoted(_) => StringToken
  }

  lemma WordLexeme(doc: string, pos: nat, l: Lexeme)
    requires IsAt(doc, pos, Render(l)) && (l == NullWord || l == TrueWord || l == FalseWord)
    ensures TokenAt(doc, pos) == Token(KindOfLexeme(l), pos, pos + |Render(l)|)
  {
    var w := Render(l);
    assert doc[pos] == w[0];
    assert w == [w[0]] + w[1..];
    IsAtSplit(doc, pos, [w[0]], w[1..]);
    assert "null"[1..] == "ull" && "true"[1..] == "rue" && "false"[1..] == "alse";
  }

  /** Where a lexeme that starts here ends, however RFC 8259 lets it be spelled: a string
      by what it denotes, a number by the integer or the double it is read as. */
  function LexemeEnd(doc: string, pos: nat, l: Lexeme, dbl: DoubleReader): (r: Option<nat>)
    ensures r.Some? ==> pos <= r.value <= |doc|
  {
    match l
    case Quoted(s) =>
      var text := StringAt(doc, pos);
      if text.Some? && text.value.s == s then Some(text.value.end) else None
    case Number(i) =>
      var end := NumberAt(doc, pos);
      if end.Some? && DecodeInteger(doc[pos..end.value]) == Some(i) then end else None
    case RealText(d, _) =>
      var end := NumberAt(doc, pos);
      if end.Some? && DecodeInteger(doc[pos..end.value]) == None && dbl(doc[pos..end.value]) == Some(d) then end else None
    case _ => if IsAt(doc, pos, Render(l)) then Some(pos + |Render(l)|) else None
  }

  /** A lexeme of the right kind in the document is one token. */
  lemma LexemeIsToken(doc: string, pos: nat, l: Lexeme, dbl: DoubleReader)
    requires LexemeEnd(doc, pos, l, dbl).Some? && KindOfLexeme(l) != ErrorToken
    ensures TokenAt(doc, pos) == Token(KindOfLexeme(l), pos, LexemeEnd(doc, pos, l, dbl).value)
    ensures pos < |doc| && !IsSpace(doc[pos])
  {
    hide StringEnd, CharactersAt, TokenAt;
    match l {
      case Punct(c) =>
        assert doc[pos] == Render(l)[0];
        PunctIsToken(doc, pos, c);
      case Number(_) =>
        NumberIsToken(doc, pos);
        NumberStart(doc, pos);
      case RealText(_, _) =>
        NumberIsToken(doc, pos);
        NumberStart(doc, pos);
      case Quoted(_) => StringIsToken(doc, pos);
      case _ =>
        assert doc[pos] == Render(l)[0];
        WordLexeme(doc, pos, l);
    }
  }

  lemma PunctIsToken(doc: string, pos: nat, c: char)
    requires At(doc, pos) == c && pos < |doc| && KindOfLexeme(Punct(c)) != ErrorToken
    ensures TokenAt(doc, pos) == Token(KindOfLexeme(Punct(c)), pos, pos + 1)
  {
  }

  lemma NumberStart(doc: string, pos: nat)
    requires NumberAt(doc, pos).Some?
    ensures pos < |doc| && !IsSpace(doc[pos])
  {
  }

  /** Where the lexemes end when they follow one another from a position on, with any
      space before each: with a value's lexemes, the grammar of section 2 of RFC 8259. */
  function Consume(doc: string, pos: nat, ls: seq<Lexeme>, dbl: DoubleReader): (r: Option<nat>)
    requires pos <= |doc|
    ensures r.Some? ==> pos <= r.value <= |doc|
    decreases |ls|
  {
    if ls == [] then Some(pos)
    else
      var end := LexemeEnd(doc, SkipSpaces(doc, pos), ls[0], dbl);
      if end.Some? then Consume(doc, end.value, ls[1..], dbl) else None
  }

  lemma {:induction false} ConsumeSplit(doc: string, pos: nat, a: seq<Lexeme>, b: seq<Lexeme>, dbl: DoubleReader)
    requires pos <= |doc|
    ensures Consume(doc, pos, a + b, dbl)
         == match Consume(doc, pos, a, dbl) case None => None case Some(e) => Consume(doc, e, b, dbl)
    decreases |a|
  {
    hide LexemeEnd, SkipSpaces;
    if a == [] {
      assert a + b == b;
    } else {
      assert (a + b)[1..] == a[1..] + b;
      var end := LexemeEnd(doc, SkipSpaces(doc, pos), a[0], dbl);
      if end.Some? {
        ConsumeSplit(doc, end.value, a[1..], b, dbl);
      }
    }
  }

  lemma ConsumeOne(doc: string, pos: nat, l: Lexeme, dbl: DoubleReader)
    requires pos <= |doc|
    ensures Consume(doc, pos, [l], dbl) == LexemeEnd(doc, SkipSpaces(doc, pos), l, dbl)
  {
    hide LexemeEnd, SkipSpaces;
    assert [l][1..] == [];
  }

  /** The lexeme before `e` is the reader's next token. */
  lemma NextToken(doc: string, pos: nat, l: Lexeme, dbl: DoubleReader, e: nat)
    requires pos <= |doc| && Consume(doc, pos, [l], dbl) == Some(e) && KindOfLexeme(l) != ErrorToken
    ensures SkipComments(doc, pos) == ReadToken(doc, pos) == TokenAt(doc, SkipSpaces(doc, pos))
         == Token(KindOfLexeme(l), SkipSpaces(doc, pos), e)
    ensures LexemeEnd(doc, SkipSpaces(doc, pos), l, dbl) == Some(e)
  {
    hide LexemeEnd, TokenAt, SkipSpaces, KindOfLexeme, Consume;
    ConsumeOne(doc, pos, l, dbl);
    LexemeIsToken(doc, SkipSpaces(doc, pos), l, dbl);
    assert SkipComments(doc, pos) == ReadToken(doc, pos);
  }

  // ----- Reading back -----

  /** No string value without text. */
  predicate NullStrFree(v: Value) {
    match v.payload
    case NullStr => false
    case Array(items) => AllNullStrFree(items)
    case Object(items) => AllNullStrFree(items)
    case _ => true
  }

  predicate AllNullStrFree(items: seq<Member>) {
    forall k :: 0 <= k < |items| ==> NullStrFreeMember(items[k])
  }

  predicate NullStrFreeMember(m: Member) {
    NullStrFree(m.value)
  }

  /** Throughout, integers are within their width, arrays are maps by index, and objects
      are lists of named members, which need not be in order. */
  predicate Shaped(v: Value) {
    match v.payload
    case Int(i) => MIN_INT64 <= i <= MAX_INT64
    case UInt(u) => u <= MAX_UINT64
    case Array(items) => Sorted(items) && (forall k :: 0 <= k < |items| ==> items[k].key.Index?) && AllShaped(items)
    case Object(items) => (forall k :: 0 <= k < |items| ==> items[k].key.Name?) && AllShaped(items)
    case _ => true
  }

  predicate AllShaped(items: seq<Member>) {
    forall k :: 0 <= k < |items| ==> ShapedMember(items[k])
  }

  predicate ShapedMember(m: Member) {
    Shaped(m.value)
  }

  /** A value that has a text. */
  predicate Spellable(v: Value) {
    NullStrFree(v) && Shaped(v)
  }

  predicate AllSpellable(ms: seq<Member>) {
    forall k :: 0 <= k < |ms| ==> Spellable(ms[k].value)
  }

  lemma ListedIsSpellable(v: Value)
    requires Spellable(v) && IsContainer(v.payload)
    ensures AllSpellable(Listed(v))
  {
    var items, ms := v.payload.items, Listed(v);
    assert AllNullStrFree(items) && AllShaped(items);
    if v.payload.Array? {
      forall i | 0 <= i < |ms|
        ensures Spellable(ms[i].value)
      {
        if Find(items, Index(i)).Some? {
          FoundIsElement(items, Index(i));
          var k :| 0 <= k < |items| && items[k] == Member(Index(i), ms[i].value);
          assert NullStrFreeMember(items[k]) && ShapedMember(items[k]);
        }
      }
    } else {
      forall k | 0 <= k < |ms|
        ensures Spellable(ms[k].value)
      {
        assert NullStrFreeMember(items[k]) && ShapedMember(items[k]);
      }
    }
  }

  lemma {:induction false} ErasePut(items: seq<Member>, key: Key, v: Value)
    ensures EraseAll(Put(items, key, v)) == Put(EraseAll(items), key, Erase(v))
  {
    if items != [] {
      ErasePut(items[1..], key, v);
      assert EraseAll(items)[1..] == EraseAll(items[1..]);
      assert ([Member(key, v)] + items)[1..] == items;
      assert ([Member(key, v)] + items[1..])[1..] == items[1..];
      assert ([items[0]] + Put(items[1..], key, v))[1..] == Put(items[1..], key, v);
    }
  }

  /** What reading at a depth makes of a value nested `inner` deep: the value, up to its
      byte ranges, read exactly to the end, or the depth exception. */
  ghost predicate ReadsAs(r: Outcome, depth: nat, inner: nat, payload: Payload, e: nat) {
    if depth + inner > STACK_LIMIT then r.Thrown?
    else r.Read? && r.ok && r.next == e && Erase(r.value) == Value(payload, 0, 0)
  }

  /** The payload a token of a scalar stands for. */
  function ScalarOf(doc: string, dbl: DoubleReader, t: Token): Option<Payload>
    requires t.start <= t.end <= |doc| && (t.kind == StringToken ==> t.start + 2 <= t.end)
  {
    match t.kind
    case NumberToken => DecodeNumber(Content(doc, t), dbl)
    case StringToken => (match DecodeString(doc, t.start + 1, t.end - 1) case Text(s) => Some(Str(s)) case _ => None)
    case TrueToken => Some(Bool(true))
    case FalseToken => Some(Bool(false))
    case NullToken => Some(Null)
    case _ => None
  }

  lemma ReadsScalarToken(doc: string, dbl: DoubleReader, pos: nat, depth: nat, cur: Value)
    requires pos <= |doc| && ScalarOf(doc, dbl, SkipComments(doc, pos)).Some?
    ensures var t := SkipComments(doc, pos);
            ReadValue(doc, dbl, pos, depth, cur)
              == if depth >= STACK_LIMIT then Thrown(cur, pos)
                 else Read(true, Value(ScalarOf(doc, dbl, t).value, t.start, t.end), t.end, [])
  {
    hide SkipComments, DecodeString, DecodeNumber, ReadMembers, ReadArray;
  }

  lemma ScalarLexeme(doc: string, dbl: DoubleReader, t: Token, v: Value, fmt: DoubleWriter)
    requires Spellable(v) && !IsContainer(v.payload)
    requires var l := Tokens(v, fmt)[0];
             t.kind == KindOfLexeme(l) && LexemeEnd(doc, t.start, l, dbl) == Some(t.end)
    ensures KindOfLexeme(Tokens(v, fmt)[0]) != ErrorToken
    ensures (t.kind == StringToken ==> t.start + 2 <= t.end) && ScalarOf(doc, dbl, t) == Some(Normal(v).payload)
  {
    hide IsAt, IntText, DecodeString, DecodeInteger, StringAt, NumberAt;
    match Tokens(v, fmt)[0]
    case Quoted(_) => StringIsToken(doc, t.start);
    case _ =>
  }

  lemma ReadsScalar(doc: string, dbl: DoubleReader, pos: nat, depth: nat, cur: Value, v: Value, fmt: DoubleWriter, e: nat)
    requires pos <= |doc| && Consume(doc, pos, Tokens(v, fmt), dbl) == Some(e)
    requires Spellable(v) && !IsContainer(v.payload)
    ensures ReadsAs(ReadValue(doc, dbl, pos, depth, cur), depth, Depth(v), Normal(v).payload, e)
  {
    var l := Tokens(v, fmt)[0];
    assert Tokens(v, fmt) == [l] && KindOfLexeme(l) != ErrorToken;
    hide ScalarOf, Tokens, Render, KindOfLexeme, ReadToken, SkipComments, TokenAt, SkipSpaces, ReadValue, Spellable;
    NextToken(doc, pos, l, dbl, e);
    ScalarLexeme(doc, dbl, SkipComments(doc, pos), v, fmt);
    ReadsScalarToken(doc, dbl, pos, depth, cur);
  }

  // ----- Lists of members -----

  lemma ConsumeTwo(doc: string, pos: nat, k: Lexeme, l: Lexeme, dbl: DoubleReader) returns (p: nat)
    requires pos <= |doc| && Consume(doc, pos, [k, l], dbl).Some?
    ensures p <= |doc| && Consume(doc, pos, [k], dbl) == Some(p) && Consume(doc, p, [l], dbl) == Consume(doc, pos, [k, l], dbl)
  {
    assert [k, l] == [k] + [l];
    ConsumeSplit(doc, pos, [k], [l], dbl);
    p := Consume(doc, pos, [k], dbl).value;
  }

  /** Where the parts of a list of members end: its first label, its first value, and
      the comma, when there is one. */
  lemma ListSplits(doc: string, pos: nat, ms: seq<Member>, fmt: DoubleWriter, close: Lexeme, dbl: DoubleReader) returns (labelled: nat, value: nat, comma: nat)
    requires pos <= |doc| && ms != [] && Consume(doc, pos, ListTokens(ms, fmt) + [close], dbl).Some?
    ensures labelled <= |doc| && value <= |doc| && comma <= |doc|
    ensures Consume(doc, pos, Label(ms[0].key), dbl) == Some(labelled)
    ensures Consume(doc, labelled, Tokens(ms[0].value, fmt), dbl) == Some(value)
    ensures |ms| == 1 ==> Consume(doc, value, [close], dbl) == Consume(doc, pos, ListTokens(ms, fmt) + [close], dbl)
    ensures |ms| > 1 ==>
              && Consume(doc, value, [Punct(',')], dbl) == Some(comma)
              && Consume(doc, comma, ListTokens(ms[1..], fmt) + [close], dbl) == Consume(doc, pos, ListTokens(ms, fmt) + [close], dbl)
  {
    hide Consume, Tokens, Label;
    var before, first := Label(ms[0].key), Tokens(ms[0].value, fmt);
    var last := ListTokens(ms[1..], fmt) + [close];
    var rest := if |ms| == 1 then [close] else [Punct(',')] + last;
    ListAsParts(ms, fmt, close);
    hide ListTokens;
    ConsumeSplit(doc, pos, before, first + rest, dbl);
    labelled := Consume(doc, pos, before, dbl).value;
    ConsumeSplit(doc, labelled, first, rest, dbl);
    value := Consume(doc, labelled, first, dbl).value;
    ConsumeSplit(doc, value, [Punct(',')], last, dbl);
    comma := if |ms| == 1 then value else Consume(doc, value, [Punct(',')], dbl).value;
  }

  lemma ListAsParts(ms: seq<Member>, fmt: DoubleWriter, close: Lexeme)
    requires ms != []
    ensures ListTokens(ms, fmt) + [close]
         == Label(ms[0].key) + (Tokens(ms[0].value, fmt)
              + (if |ms| == 1 then [close] else [Punct(',')] + (ListTokens(ms[1..], fmt) + [close])))
  {
    hide Tokens, Label;
    var before, first := Label(ms[0].key), Tokens(ms[0].value, fmt);
    if |ms| == 1 {
      assert ListTokens(ms, fmt) == before + first + [];
      RegroupOne(before, first, [close]);
    } else {
      var more := ListTokens(ms[1..], fmt);
      assert ListTokens(ms, fmt) == before + first + ([Punct(',')] + more);
      RegroupMore(before, first, [Punct(',')], more, [close]);
    }
  }

  lemma RegroupOne<T>(a: seq<T>, b: seq<T>, d: seq<T>)
    ensures a + b + [] + d == a + (b + d)
  {
  }

  lemma RegroupMore<T>(a: seq<T>, b: seq<T>, c: seq<T>, more: seq<T>, d: seq<T>)
    ensures a + b + (c + more) + d == a + (b + (c + (more + d)))
  {
    assert c + more + d == c + (more + d);
    assert b + (c + more) + d == b + (c + more + d);
  }

  lemma MemberUnfolds(doc: string, dbl: DoubleReader, pos: nat, depth: nat, acc: Value, name: string, key: string)
    requires pos <= |doc| && SkipComments(doc, pos).kind == StringToken
    requires var t := SkipComments(doc, pos);
             && DecodeString(doc, t.start + 1, t.end - 1) == Text(key)
             && ReadToken(doc, t.end).kind == MemberSeparator
    ensures ReadMembers(doc, dbl, pos, depth, acc, name)
         == MemberRead(doc, dbl, ReadToken(doc, SkipComments(doc, pos).end).end, depth, acc, key)
  {
    hide SkipComments, ReadToken, DecodeString, ReadValue, AfterMember, Recover, Fail, Reference, Assign, ReadArray, ReadElements;
  }

  /** The first steps of reading a member: its name and the colon. */
  lemma MemberStarts(doc: string, dbl: DoubleReader, pos: nat, depth: nat, acc: Value, name: string, key: string, labelled: nat)
    requires pos <= |doc| && Consume(doc, pos, Label(Name(key)), dbl) == Some(labelled)
    ensures labelled <= |doc|
    ensures ReadMembers(doc, dbl, pos, depth, acc, name) == MemberRead(doc, dbl, labelled, depth, acc, key)
  {
    hide Consume, SkipSpaces, TokenAt, Render, IsAt, ReadToken, SkipComments, DecodeString, ReadValue, ReadMembers, MemberRead;
    var q := ConsumeTwo(doc, pos, Quoted(key), Punct(':'), dbl);
    NextToken(doc, pos, Quoted(key), dbl, q);
    NextToken(doc, q, Punct(':'), dbl, labelled);
    QuotedDecodes(doc, dbl, SkipComments(doc, pos), key);
    MemberUnfolds(doc, dbl, pos, depth, acc, name, key);
  }

  lemma QuotedDecodes(doc: string, dbl: DoubleReader, t: Token, key: string)
    requires LexemeEnd(doc, t.start, Quoted(key), dbl) == Some(t.end)
    ensures t.start + 2 <= t.end <= |doc| && DecodeString(doc, t.start + 1, t.end - 1) == Text(key)
  {
    hide DecodeString, StringAt, TokenAt;
    StringIsToken(doc, t.start);
  }

  /** Reading a member's value and what follows it. */
  function MemberRead(doc: string, dbl: DoubleReader, pos: nat, depth: nat, acc: Value, key: string): Outcome
    requires pos <= |doc|
  {
    var child := ReadValue(doc, dbl, pos, depth, Reference(acc, Name(key)));
    var w := Assign(acc, Name(key), child.value);
    if child.Thrown? then Thrown(w, child.next)
    else if !child.ok then Recover(doc, w, child.next, ObjectEnd, child.errors)
    else AfterMember(doc, dbl, child.next, depth, w, key)
  }

  /** What follows a member's value: the closing brace, or a comma and more. */
  lemma MemberEnds(doc: string, dbl: DoubleReader, pos: nat, depth: nat, w: Value, name: string, close: bool, e: nat)
    requires pos <= |doc| && Consume(doc, pos, [Punct(if close then '}' else ',')], dbl) == Some(e)
    ensures e <= |doc|
    ensures AfterMember(doc, dbl, pos, depth, w, name)
         == if close then Read(true, w, e, []) else ReadMembers(doc, dbl, e, depth, w, name)
  {
    hide ReadMembers, Consume, SkipSpaces, TokenAt, Render, IsAt, ReadToken, SkipComments;
    NextToken(doc, pos, Punct(if close then '}' else ','), dbl, e);
  }

  /** What reading a list of members onto those of a container makes of it. */
  ghost predicate ReadsList(r: Outcome, depth: nat, inner: nat, braces: bool, items: seq<Member>, e: nat) {
    if depth + inner > STACK_LIMIT then r.Thrown?
    else
      && r.Read? && r.ok && r.next == e && IsContainer(r.value.payload) && r.value.payload.Object? == braces
      && EraseAll(r.value.payload.items) == items
  }

  lemma AssignErased(acc: Value, key: Key, x: Value, payload: Payload)
    requires IsContainer(acc.payload) && Erase(x) == Value(payload, 0, 0)
    ensures IsContainer(Assign(acc, key, x).payload) && Assign(acc, key, x).payload.Object? == acc.payload.Object?
    ensures EraseAll(Assign(acc, key, x).payload.items) == Put(EraseAll(acc.payload.items), key, Value(payload, 0, 0))
  {
    ErasePut(acc.payload.items, key, x);
  }

  lemma ListUnfolds(ms: seq<Member>, items: seq<Member>)
    requires ms != []
    ensures PutAll(items, NormalAll(ms)) == PutAll(Put(items, ms[0].key, Value(Normal(ms[0].value).payload, 0, 0)), NormalAll(ms[1..]))
    ensures DepthOfAll(ms) == Max(Depth(ms[0].value), DepthOfAll(ms[1..]))
    ensures |ms| == 1 ==> NormalAll(ms[1..]) == [] && DepthOfAll(ms[1..]) == 0
  {
    assert NormalAll(ms)[0] == Member(ms[0].key, Normal(ms[0].value)) && NormalAll(ms)[1..] == NormalAll(ms[1..]);
  }

  lemma {:induction false} ReadsMembers(doc: string, dbl: DoubleReader, pos: nat, depth: nat, acc: Value, name: string,
    ms: seq<Member>, fmt: DoubleWriter, e: nat)
    requires pos <= |doc| && ms != [] && AllSpellable(ms) && acc.payload.Object?
    requires forall k :: 0 <= k < |ms| ==> ms[k].key.Name?
    requires Consume(doc, pos, ListTokens(ms, fmt) + [Punct('}')], dbl) == Some(e)
    ensures ReadsList(ReadMembers(doc, dbl, pos, depth, acc, name), depth, DepthOfAll(ms), true,
              PutAll(EraseAll(acc.payload.items), NormalAll(ms)), e)
    decreases DepthOfAll(ms), |ms| + 1
  {
    hide Consume, ListTokens, Tokens, Label, Spellable, ReadMembers, ReadValue, AfterMember, ReadArray, ReadElements, Recover, Fail;
    hide Normal, NormalAll, PutAll, Put, EraseAll, Assign, Reference, DepthOfAll, Depth, SkipComments, ReadToken, SkipSpaces;
    var key, v := ms[0].key.s, ms[0].value;
    ListUnfolds(ms, EraseAll(acc.payload.items));
    var labelled, value, comma := ListSplits(doc, pos, ms, fmt, Punct('}'), dbl);
    MemberStarts(doc, dbl, pos, depth, acc, name, key, labelled);
    var cur := Reference(acc, Name(key));
    ReadsBack(doc, dbl, labelled, depth, cur, v, fmt, value);
    if depth + Depth(v) <= STACK_LIMIT {
      var x := ReadValue(doc, dbl, labelled, depth, cur).value;
      var w := Assign(acc, Name(key), x);
      AssignErased(acc, Name(key), x, Normal(v).payload);
      MemberEnds(doc, dbl, value, depth, w, key, |ms| == 1, if |ms| == 1 then e else comma);
      if |ms| > 1 {
        ReadsMembers(doc, dbl, comma, depth, w, key, ms[1..], fmt, e);
      } else {
        NothingMore(Put(EraseAll(acc.payload.items), Name(key), Value(Normal(v).payload, 0, 0)));
      }
    }
  }

  lemma NothingMore(items: seq<Member>)
    ensures PutAll(items, []) == items
  {
  }

  lemma {:induction false} ReadsElements(doc: string, dbl: DoubleReader, pos: nat, depth: nat, acc: Value, index: nat,
    ms: seq<Member>, fmt: DoubleWriter, e: nat)
    requires pos <= |doc| && ms != [] && AllSpellable(ms) && acc.payload.Array?
    requires forall k :: 0 <= k < |ms| ==> ms[k].key == Index(index + k)
    requires Consume(doc, pos, ListTokens(ms, fmt) + [Punct(']')], dbl) == Some(e)
    ensures ReadsList(ReadElements(doc, dbl, pos, depth, acc, index), depth, DepthOfAll(ms), false,
              PutAll(EraseAll(acc.payload.items), NormalAll(ms)), e)
    decreases DepthOfAll(ms), |ms| + 1
  {
    hide Consume, ListTokens, Tokens, Label, Spellable, ReadMembers, ReadValue, AfterMember, ReadArray, ReadElements, Recover, Fail;
    hide Normal, NormalAll, PutAll, Put, EraseAll, Assign, Reference, DepthOfAll, Depth, SkipComments, ReadToken, SkipSpaces;
    var v := ms[0].value;
    ListUnfolds(ms, EraseAll(acc.payload.items));
    NoLabel(doc, pos, index, dbl);
    var labelled, value, comma := ListSplits(doc, pos, ms, fmt, Punct(']'), dbl);
    var cur := Reference(acc, Index(index));
    ReadsBack(doc, dbl, pos, depth, cur, v, fmt, value);
    if depth + Depth(v) <= STACK_LIMIT {
      var x := ReadValue(doc, dbl, pos, depth, cur).value;
      var w := Assign(acc, Index(index), x);
      AssignErased(acc, Index(index), x, Normal(v).payload);
      ElementEnds(doc, dbl, pos, depth, acc, index, |ms| == 1, if |ms| == 1 then e else comma);
      if |ms| > 1 {
        ReadsElements(doc, dbl, comma, depth, w, index + 1, ms[1..], fmt, e);
      } else {
        NothingMore(Put(EraseAll(acc.payload.items), Index(index), Value(Normal(v).payload, 0, 0)));
      }
    } else {
      ElementThrows(doc, dbl, pos, depth, acc, index);
    }
  }

  lemma NoLabel(doc: string, pos: nat, index: nat, dbl: DoubleReader)
    requires pos <= |doc|
    ensures Consume(doc, pos, Label(Index(index)), dbl) == Some(pos)
  {
  }

  lemma ElementThrows(doc: string, dbl: DoubleReader, pos: nat, depth: nat, acc: Value, index: nat)
    requires pos <= |doc| && ReadValue(doc, dbl, pos, depth, Reference(acc, Index(index))).Thrown?
    ensures ReadElements(doc, dbl, pos, depth, acc, index).Thrown?
  {
    hide ReadValue, ReadMembers, ReadArray, AfterMember, SkipComments, Recover, Fail, Reference, Assign;
  }

  /** What follows an element: the closing bracket, or a comma and more. */
  lemma ElementEnds(doc: string, dbl: DoubleReader, pos: nat, depth: nat, acc: Value, index: nat, close: bool, e: nat)
    requires pos <= |doc|
    requires var child := ReadValue(doc, dbl, pos, depth, Reference(acc, Index(index)));
             child.Read? && child.ok && Consume(doc, child.next, [Punct(if close then ']' else ',')], dbl) == Some(e)
    ensures e <= |doc|
    ensures var w := Assign(acc, Index(index), ReadValue(doc, dbl, pos, depth, Reference(acc, Index(index))).value);
            ReadElements(doc, dbl, pos, depth, acc, index)
              == if close then Read(true, w, e, []) else ReadElements(doc, dbl, e, depth, w, index + 1)
  {
    hide ReadValue, ReadMembers, ReadArray, AfterMember, Recover, Fail, Reference, Assign;
    hide Consume, SkipSpaces, TokenAt, Render, IsAt, ReadToken, SkipComments;
    var child := ReadValue(doc, dbl, pos, depth, Reference(acc, Index(index)));
    NextToken(doc, child.next, Punct(if close then ']' else ','), dbl, e);
  }

  /** Any text of a value reads back as its normal form, ends where the text ends, and hits the depth limit exactly when the value is nested too deeply. */
  lemma {:induction false} ReadsBack(doc: string, dbl: DoubleReader, pos: nat, depth: nat, cur: Value, v: Value, fmt: DoubleWriter, e: nat)
    requires pos <= |doc| && Consume(doc, pos, Tokens(v, fmt), dbl) == Some(e) && Spellable(v)
    ensures ReadsAs(ReadValue(doc, dbl, pos, depth, cur), depth, Depth(v), Normal(v).payload, e)
    decreases Depth(v), 1
  {
    if v.payload.Array? {
      ReadsArray(doc, dbl, pos, depth, cur, v, fmt, e);
    } else if v.payload.Object? {
      ReadsObject(doc, dbl, pos, depth, cur, v, fmt, e);
    } else {
      ReadsScalar(doc, dbl, pos, depth, cur, v, fmt, e);
    }
  }

  /** A container's text: its opening bracket, its list, its closing bracket. */
  lemma ContainerSplits(doc: string, pos: nat, v: Value, fmt: DoubleWriter, open: Lexeme, close: Lexeme, dbl: DoubleReader) returns (p: nat)
    requires pos <= |doc| && Consume(doc, pos, Tokens(v, fmt), dbl).Some?
    requires Tokens(v, fmt) == [open] + ListTokens(Listed(v), fmt) + [close]
    ensures p <= |doc| && Consume(doc, pos, [open], dbl) == Some(p)
    ensures Consume(doc, p, ListTokens(Listed(v), fmt) + [close], dbl) == Consume(doc, pos, Tokens(v, fmt), dbl)
  {
    hide Tokens, ListTokens, Listed, Consume;
    var list := ListTokens(Listed(v), fmt);
    assert [open] + list + [close] == [open] + (list + [close]);
    ConsumeSplit(doc, pos, [open], list + [close], dbl);
    p := Consume(doc, pos, [open], dbl).value;
  }

  lemma {:induction false} FindSorted(items: seq<Member>, k: nat)
    requires Sorted(items) && k < |items|
    ensures Find(items, items[k].key) == Some(items[k].value)
  {
    if k > 0 {
      TailIsSorted(items);
      KeyTrichotomy(items[0].key, items[0].key);
      FindSorted(items[1..], k - 1);
    }
  }

  /** Filling an array's missing slots makes it no deeper. */
  lemma ListedIsAsDeep(v: Value)
    requires Shaped(v) && IsContainer(v.payload)
    ensures DepthOfAll(Listed(v)) == DepthOfAll(v.payload.items) && Depth(v) == 1 + DepthOfAll(Listed(v))
  {
    ListedIsShallower(v);
    if v.payload.Array? {
      var items, ms := v.payload.items, Listed(v);
      forall k | 0 <= k < |items|
        ensures Depth(items[k].value) <= DepthOfAll(ms)
      {
        FindSorted(items, k);
        assert k < |items| - 1 ==> KeyLess(items[k].key, items[|items| - 1].key);
        assert ms[items[k].key.i].value == items[k].value;
        DepthOfElement(ms, items[k].key.i);
      }
      DepthIsBounded(items, DepthOfAll(ms));
    }
  }

  lemma ObjectUnfolds(doc: string, dbl: DoubleReader, pos: nat, depth: nat, cur: Value)
    requires pos <= |doc| && SkipComments(doc, pos).kind == ObjectBegin
    ensures var t := SkipComments(doc, pos);
            ReadValue(doc, dbl, pos, depth, cur)
              == if depth >= STACK_LIMIT then Thrown(cur, pos)
                 else Limit(ReadMembers(doc, dbl, t.end, depth + 1, Value(Object([]), t.start, cur.limit), ""))
  {
    hide ReadMembers, ReadArray, SkipComments, Limit, DecodeString, DecodeNumber;
  }

  lemma NoMembers(doc: string, dbl: DoubleReader, pos: nat, depth: nat, v: Value)
    requires pos <= |doc| && SkipComments(doc, pos).kind == ObjectEnd
    ensures ReadMembers(doc, dbl, pos, depth, v, "") == Read(true, v, SkipComments(doc, pos).end, [])
  {
    hide ReadValue, AfterMember, SkipComments, DecodeString, Recover, Fail;
  }

  /** A container read as a list, its range set. */
  lemma LimitReads(r: Outcome, depth: nat, inner: nat, braces: bool, items: seq<Member>, e: nat)
    requires ReadsList(r, depth + 1, inner, braces, items, e)
    ensures ReadsAs(Limit(r), depth, 1 + inner, if braces then Object(items) else Array(items), e)
  {
  }

  lemma EmptyReads(depth: nat, v: Value, e: nat)
    requires depth + 1 <= STACK_LIMIT && IsContainer(v.payload) && v.payload.items == []
    ensures ReadsList(Read(true, v, e, []), depth + 1, 0, v.payload.Object?, [], e)
  {
  }

  /** The list of an object, empty or not. */
  lemma ReadsBraces(doc: string, dbl: DoubleReader, pos: nat, depth: nat, start: nat, limit: nat, ms: seq<Member>, fmt: DoubleWriter, e: nat)
    requires pos <= |doc| && depth < STACK_LIMIT && AllSpellable(ms) && forall k :: 0 <= k < |ms| ==> ms[k].key.Name?
    requires Consume(doc, pos, ListTokens(ms, fmt) + [Punct('}')], dbl) == Some(e)
    ensures ReadsList(ReadMembers(doc, dbl, pos, depth + 1, Value(Object([]), start, limit), ""), depth + 1, DepthOfAll(ms), true,
              PutAll([], NormalAll(ms)), e)
    decreases DepthOfAll(ms), |ms| + 2
  {
    hide Consume, ListTokens, ReadMembers, SkipComments, ReadToken, SkipSpaces, DepthOfAll, Spellable, ReadsList, Render, IsAt;
    var v := Value(Object([]), start, limit);
    if ms == [] {
      EmptyList(fmt, Punct('}'));
      NextToken(doc, pos, Punct('}'), dbl, e);
      NoMembers(doc, dbl, pos, depth + 1, v);
      EmptyReads(depth, v, e);
    } else {
      ReadsMembers(doc, dbl, pos, depth + 1, v, "", ms, fmt, e);
    }
  }

  lemma ReadsObject(doc: string, dbl: DoubleReader, pos: nat, depth: nat, cur: Value, v: Value, fmt: DoubleWriter, e: nat)
    requires pos <= |doc| && Consume(doc, pos, Tokens(v, fmt), dbl) == Some(e) && Spellable(v) && v.payload.Object?
    ensures ReadsAs(ReadValue(doc, dbl, pos, depth, cur), depth, Depth(v), Normal(v).payload, e)
    decreases Depth(v), 0
  {
    hide Consume, SkipSpaces, TokenAt, Render, IsAt, ReadToken, SkipComments, ReadMembers, ReadValue, ReadArray;
    hide ListTokens, Limit, DepthOfAll, ReadsAs, ReadsList, NullStrFree;
    var ms := Listed(v);
    var p := ContainerSplits(doc, pos, v, fmt, Punct('{'), Punct('}'), dbl);
    NextToken(doc, pos, Punct('{'), dbl, p);
    ObjectUnfolds(doc, dbl, pos, depth, cur);
    ListedIsAsDeep(v);
    ListedIsSpellable(v);
    if depth < STACK_LIMIT {
      var start := SkipSpaces(doc, pos);
      ReadsBraces(doc, dbl, p, depth, start, cur.limit, ms, fmt, e);
      LimitReads(ReadMembers(doc, dbl, p, depth + 1, Value(Object([]), start, cur.limit), ""), depth, DepthOfAll(ms), true,
        PutAll([], NormalAll(ms)), e);
    } else {
      TooDeep(ReadValue(doc, dbl, pos, depth, cur), depth, Depth(v), Normal(v).payload, e);
    }
  }

  lemma EmptyList(fmt: DoubleWriter, close: Lexeme)
    ensures ListTokens([], fmt) + [close] == [close] && DepthOfAll([]) == 0 && PutAll([], NormalAll([])) == []
  {
  }

  lemma TooDeep(r: Outcome, depth: nat, inner: nat, payload: Payload, e: nat)
    requires r.Thrown? && depth >= STACK_LIMIT && inner > 0
    ensures ReadsAs(r, depth, inner, payload, e)
  {
  }

  lemma {:induction false} SkipSpacesTwice(doc: string, pos: nat)
    requires pos <= |doc|
    ensures SkipSpaces(doc, SkipSpaces(doc, pos)) == SkipSpaces(doc, pos)
    decreases |doc| - pos
  {
    if pos < |doc| && IsSpace(doc[pos]) {
      SkipSpacesTwice(doc, pos + 1);
    }
  }

  lemma FirstLexeme(v: Value, fmt: DoubleWriter)
    requires Spellable(v)
    ensures Tokens(v, fmt) != []
    ensures var k := KindOfLexeme(Tokens(v, fmt)[0]); k != ErrorToken && k != ArrayEnd
  {
    hide ListTokens, Listed;
  }

  /** A value's text never starts with a closing bracket. */
  lemma StartsNoClose(doc: string, pos: nat, v: Value, fmt: DoubleWriter, dbl: DoubleReader)
    requires pos <= |doc| && Spellable(v) && Consume(doc, pos, Tokens(v, fmt), dbl).Some?
    ensures At(doc, SkipSpaces(doc, pos)) != ']'
  {
    hide Tokens, KindOfLexeme, Consume, SkipSpaces, Spellable, Render, IsAt;
    FirstLexeme(v, fmt);
    var l := Tokens(v, fmt)[0];
    assert Tokens(v, fmt) == [l] + Tokens(v, fmt)[1..];
    ConsumeSplit(doc, pos, [l], Tokens(v, fmt)[1..], dbl);
    NextToken(doc, pos, l, dbl, Consume(doc, pos, [l], dbl).value);
  }

  lemma ConsumeAfterSpaces(doc: string, pos: nat, ls: seq<Lexeme>, dbl: DoubleReader)
    requires pos <= |doc| && ls != []
    ensures Consume(doc, SkipSpaces(doc, pos), ls, dbl) == Consume(doc, pos, ls, dbl)
  {
    SkipSpacesTwice(doc, pos);
  }

  lemma ArrayUnfolds(doc: string, dbl: DoubleReader, pos: nat, depth: nat, cur: Value)
    requires pos <= |doc| && SkipComments(doc, pos).kind == ArrayBegin
    ensures var t := SkipComments(doc, pos);
            ReadValue(doc, dbl, pos, depth, cur)
              == if depth >= STACK_LIMIT then Thrown(cur, pos)
                 else Limit(ReadArray(doc, dbl, t.end, depth + 1, Value(Array([]), t.start, cur.limit)))
  {
    hide ReadMembers, ReadArray, SkipComments, Limit, DecodeString, DecodeNumber;
  }

  lemma ArrayBody(doc: string, dbl: DoubleReader, pos: nat, depth: nat, v: Value)
    requires pos <= |doc|
    ensures var s := SkipSpaces(doc, pos);
            ReadArray(doc, dbl, pos, depth, v)
              == if At(doc, s) == ']' then Read(true, v, s + 1, []) else ReadElements(doc, dbl, s, depth, v, 0)
  {
    hide ReadElements, SkipSpaces;
  }

  lemma ClosesAtOnce(doc: string, pos: nat, e: nat, dbl: DoubleReader)
    requires pos <= |doc| && Consume(doc, pos, [Punct(']')], dbl) == Some(e)
    ensures At(doc, SkipSpaces(doc, pos)) == ']' && e == SkipSpaces(doc, pos) + 1
  {
    NextToken(doc, pos, Punct(']'), dbl, e);
  }

  /** No closing bracket comes before the first element. */
  lemma ElementsFollow(doc: string, pos: nat, ms: seq<Member>, fmt: DoubleWriter, dbl: DoubleReader)
    requires pos <= |doc| && ms != [] && Spellable(ms[0].value) && ms[0].key == Index(0)
    requires Consume(doc, pos, ListTokens(ms, fmt) + [Punct(']')], dbl).Some?
    ensures At(doc, SkipSpaces(doc, pos)) != ']'
    ensures Consume(doc, SkipSpaces(doc, pos), ListTokens(ms, fmt) + [Punct(']')], dbl) == Consume(doc, pos, ListTokens(ms, fmt) + [Punct(']')], dbl)
  {
    hide Consume, ListTokens, SkipSpaces, Spellable, At, Tokens;
    var labelled, value, comma := ListSplits(doc, pos, ms, fmt, Punct(']'), dbl);
    NoLabel(doc, pos, 0, dbl);
    StartsNoClose(doc, pos, ms[0].value, fmt, dbl);
    ConsumeAfterSpaces(doc, pos, ListTokens(ms, fmt) + [Punct(']')], dbl);
  }

  /** The list of an array, empty or not. */
  lemma ReadsBrackets(doc: string, dbl: DoubleReader, pos: nat, depth: nat, start: nat, limit: nat, ms: seq<Member>, fmt: DoubleWriter, e: nat)
    requires pos <= |doc| && depth < STACK_LIMIT && AllSpellable(ms) && forall k :: 0 <= k < |ms| ==> ms[k].key == Index(k)
    requires Consume(doc, pos, ListTokens(ms, fmt) + [Punct(']')], dbl) == Some(e)
    ensures ReadsList(ReadArray(doc, dbl, pos, depth + 1, Value(Array([]), start, limit)), depth + 1, DepthOfAll(ms), false,
              PutAll([], NormalAll(ms)), e)
    decreases DepthOfAll(ms), |ms| + 2
  {
    hide Consume, ListTokens, ReadArray, ReadElements, SkipSpaces, DepthOfAll, Spellable, ReadsList, At;
    var v := Value(Array([]), start, limit);
    ArrayBody(doc, dbl, pos, depth + 1, v);
    if ms == [] {
      EmptyList(fmt, Punct(']'));
      ClosesAtOnce(doc, pos, e, dbl);
      EmptyReads(depth, v, e);
    } else {
      ElementsFollow(doc, pos, ms, fmt, dbl);
      ReadsElements(doc, dbl, SkipSpaces(doc, pos), depth + 1, v, 0, ms, fmt, e);
    }
  }

  lemma ListedByIndex(v: Value)
    requires v.payload.Array?
    ensures forall k :: 0 <= k < |Listed(v)| ==> Listed(v)[k].key == Index(k)
  {
    hide Slot;
  }

  lemma ReadsArray(doc: string, dbl: DoubleReader, pos: nat, depth: nat, cur: Value, v: Value, fmt: DoubleWriter, e: nat)
    requires pos <= |doc| && Consume(doc, pos, Tokens(v, fmt), dbl) == Some(e) && Spellable(v) && v.payload.Array?
    ensures ReadsAs(ReadValue(doc, dbl, pos, depth, cur), depth, Depth(v), Normal(v).payload, e)
    decreases Depth(v), 0
  {
    hide Consume, SkipSpaces, TokenAt, Render, IsAt, ReadToken, SkipComments, ReadMembers, ReadElements, ReadValue, ReadArray;
    hide ListTokens, Limit, DepthOfAll, ReadsAs, ReadsList, NullStrFree, Shaped, Listed, NormalAll, PutAll;
    var ms := Listed(v);
    var p := ContainerSplits(doc, pos, v, fmt, Punct('['), Punct(']'), dbl);
    NextToken(doc, pos, Punct('['), dbl, p);
    ArrayUnfolds(doc, dbl, pos, depth, cur);
    ListedIsAsDeep(v);
    ListedIsSpellable(v);
    ListedByIndex(v);
    if depth < STACK_LIMIT {
      var start := SkipSpaces(doc, pos);
      ReadsBrackets(doc, dbl, p, depth, start, cur.limit, ms, fmt, e);
      LimitReads(ReadArray(doc, dbl, p, depth + 1, Value(Array([]), start, cur.limit)), depth, DepthOfAll(ms), false,
        PutAll([], NormalAll(ms)), e);
    } else {
      TooDeep(ReadValue(doc, dbl, pos, depth, cur), depth, Depth(v), Normal(v).payload, e);
    }
  }
}
