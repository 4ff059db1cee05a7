/**
 The value an RFC 8259 text denotes, by a plain recursive descent over the grammar of the
 standard, and that the reader makes the same of it. The reader accepts other texts too.
 */
module JsonReference {
  import opened Wrappers
  import opened JsonValue
  import opened JsonOrder
  import opened Decimal
  import opened JsonScanner
  import opened JsonStrings
  import opened JsonReading
  import opened JsonText
  import opened JsonGrammar
  import opened JsonRoundTrip

  datatype Denoted = Denoted(v: Value, end: nat)

  datatype DenotedList = DenotedList(items: seq<Member>, end: nat)

  function Plain(p: Payload): Value {
    Value(p, 0, 0)
  }

  /** The end of a lexeme of fixed spelling that comes next. */
  function Next(doc: string, pos: nat, l: Lexeme): (r: Option<nat>)
    requires pos <= |doc| && Render(l) != []
    ensures r.Some? ==> pos < r.value <= |doc|
  {
    var start := SkipSpaces(doc, pos);
    if IsAt(doc, start, Render(l)) then Some(start + |Render(l)|) else None
  }

  /** A value (section 3). Numbers that are no 64-bit integers are what the C++ library
      makes of them. */
  function ValueAt(doc: string, pos: nat, dbl: DoubleReader): (r: Option<Denoted>)
    requires pos <= |doc|
    ensures r.Some? ==> pos < r.value.end <= |doc|
    decreases |doc| - pos, 0
  {
    var start := SkipSpaces(doc, pos);
    match At(doc, start)
    case '{' => Wrap(ObjectAt(doc, start + 1, dbl), true)
    case '[' => Wrap(ArrayAt(doc, start + 1, dbl), false)
    case '"' =>
      var s := StringAt(doc, start);
      if s.Some? then Some(Denoted(Plain(Str(s.value.s)), s.value.end)) else None
    case 't' => Word(doc, pos, TrueWord, Bool(true))
    case 'f' => Word(doc, pos, FalseWord, Bool(false))
    case 'n' => Word(doc, pos, NullWord, Null)
    case _ =>
      var end := NumberAt(doc, start);
      if end.None? then None
      else
        var p := DecodeNumber(doc[start..end.value], dbl);
        if p.Some? then Some(Denoted(Plain(p.value), end.value)) else None
  }

  function Word(doc: string, pos: nat, l: Lexeme, p: Payload): (r: Option<Denoted>)
    requires pos <= |doc| && Render(l) != []
    ensures r.Some? ==> pos < r.value.end <= |doc|
  {
    var end := Next(doc, pos, l);
    if end.Some? then Some(Denoted(Plain(p), end.value)) else None
  }

  function Wrap(list: Option<DenotedList>, braces: bool): (r: Option<Denoted>)
    ensures r.Some? == list.Some? && (r.Some? ==> r.value.end == list.value.end)
  {
    if list.None? then None
    else Some(Denoted(Plain(if braces then Object(list.value.items) else Array(list.value.items)), list.value.end))
  }

  /** An array (section 5) after its opening bracket. */
  function ArrayAt(doc: string, pos: nat, dbl: DoubleReader): (r: Option<DenotedList>)
    requires pos <= |doc|
    ensures r.Some? ==> pos < r.value.end <= |doc|
    decreases |doc| - pos, 2
  {
    var close := Next(doc, pos, Punct(']'));
    if close.Some? then Some(DenotedList([], close.value)) else ElementsAt(doc, pos, dbl, 0)
  }

  function ElementsAt(doc: string, pos: nat, dbl: DoubleReader, index: nat): (r: Option<DenotedList>)
    requires pos <= |doc|
    ensures r.Some? ==> pos < r.value.end <= |doc|
    decreases |doc| - pos, 1
  {
    var x := ValueAt(doc, pos, dbl);
    if x.None? then None
    else
      var m := Member(Index(index), x.value.v);
      var close, comma := Next(doc, x.value.end, Punct(']')), Next(doc, x.value.end, Punct(','));
      if close.Some? then Some(DenotedList([m], close.value))
      else if comma.Some? then Cons(m, ElementsAt(doc, comma.value, dbl, index + 1))
      else None
  }

  /** An object (section 4) after its opening brace. */
  function ObjectAt(doc: string, pos: nat, dbl: DoubleReader): (r: Option<DenotedList>)
    requires pos <= |doc|
    ensures r.Some? ==> pos < r.value.end <= |doc|
    decreases |doc| - pos, 2
  {
    var close := Next(doc, pos, Punct('}'));
    if close.Some? then Some(DenotedList([], close.value)) else MembersAt(doc, pos, dbl)
  }

  function MembersAt(doc: string, pos: nat, dbl: DoubleReader): (r: Option<DenotedList>)
    requires pos <= |doc|
    ensures r.Some? ==> pos < r.value.end <= |doc|
    decreases |doc| - pos, 1
  {
    var name := StringAt(doc, SkipSpaces(doc, pos));
    var colon := if name.Some? then Next(doc, name.value.end, Punct(':')) else None;
    var x := if colon.Some? then ValueAt(doc, colon.value, dbl) else None;
    if x.None? then None
    else
      var m := Member(Name(name.value.s), x.value.v);
      var close, comma := Next(doc, x.value.end, Punct('}')), Next(doc, x.value.end, Punct(','));
      if close.Some? then Some(DenotedList([m], close.value))
      else if comma.Some? then Cons(m, MembersAt(doc, comma.value, dbl))
      else None
  }

  function Cons(m: Member, rest: Option<DenotedList>): (r: Option<DenotedList>)
    ensures r.Some? == rest.Some? && (r.Some? ==> r.value.end == rest.value.end)
  {
    if rest.None? then None else Some(rest.value.(items := [m] + rest.value.items))
  }

  /** A JSON text (section 2): a value and nothing after it but space. */
  function Denotes(doc: string, dbl: DoubleReader): Option<Value> {
    var x := ValueAt(doc, 0, dbl);
    if x.Some? && SkipSpaces(doc, x.value.end) == |doc| then Some(x.value.v) else None
  }

  // ----- The descent follows the lexemes -----

  /** The doubles' texts do not matter to reading. */
  const NO_TEXT: DoubleWriter := (d: Double) => []

  lemma NextIsConsumed(doc: string, pos: nat, l: Lexeme, dbl: DoubleReader)
    requires pos <= |doc| && (l.Punct? || l == NullWord || l == TrueWord || l == FalseWord) && Next(doc, pos, l).Some?
    ensures Consume(doc, pos, [l], dbl) == Next(doc, pos, l)
  {
    hide SkipSpaces, IsAt;
    ConsumeOne(doc, pos, l, dbl);
  }

  lemma IntegersFit(t: string)
    ensures DecodeInteger(t).Some? ==> MIN_INT64 <= DecodeInteger(t).value <= MAX_UINT64
  {
    hide Decimal.Number, AllDigits;
  }

  lemma NumberIsConsumed(doc: string, pos: nat, dbl: DoubleReader, p: Payload)
    requires pos <= |doc| && NumberAt(doc, SkipSpaces(doc, pos)).Some?
    requires var start := SkipSpaces(doc, pos); DecodeNumber(doc[start..NumberAt(doc, start).value], dbl) == Some(p)
    ensures Spellable(Plain(p))
    ensures Consume(doc, pos, Tokens(Plain(p), NO_TEXT), dbl) == NumberAt(doc, SkipSpaces(doc, pos))
  {
    hide SkipSpaces, NumberAt, DecodeInteger, Consume;
    var start := SkipSpaces(doc, pos);
    IntegersFit(doc[start..NumberAt(doc, start).value]);
    ConsumeOne(doc, pos, Tokens(Plain(p), NO_TEXT)[0], dbl);
  }

  /** What makes a list of members one that a container's text can hold. */
  predicate Laid(doc: string, pos: nat, ms: seq<Member>, close: char, dbl: DoubleReader, end: nat) {
    pos <= |doc| && AllSpellable(ms) && Consume(doc, pos, ListTokens(ms, NO_TEXT) + [Punct(close)], dbl) == Some(end)
  }

  lemma EmptyIsLaid(doc: string, pos: nat, close: char, dbl: DoubleReader)
    requires pos <= |doc| && Next(doc, pos, Punct(close)).Some?
    ensures Laid(doc, pos, [], close, dbl, Next(doc, pos, Punct(close)).value)
  {
    hide Consume, SkipSpaces;
    NextIsConsumed(doc, pos, Punct(close), dbl);
    EmptyList(NO_TEXT, Punct(close));
  }

  /** A list is laid out if its parts are: a label, a value, and the rest. */
  lemma ListJoins(doc: string, pos: nat, m: Member, rest: seq<Member>, close: char, dbl: DoubleReader, labelled: nat, value: nat, end: nat)
    requires pos <= |doc| && labelled <= |doc| && value <= |doc| && Spellable(m.value)
    requires Consume(doc, pos, Label(m.key), dbl) == Some(labelled)
    requires Consume(doc, labelled, Tokens(m.value, NO_TEXT), dbl) == Some(value)
    requires if rest == [] then Next(doc, value, Punct(close)) == Some(end)
             else Next(doc, value, Punct(',')).Some? && Laid(doc, Next(doc, value, Punct(',')).value, rest, close, dbl, end)
    ensures Laid(doc, pos, [m] + rest, close, dbl, end)
  {
    hide Consume, Tokens, Label, Next, Spellable;
    var ms, before, first := [m] + rest, Label(m.key), Tokens(m.value, NO_TEXT);
    assert ms[1..] == rest;
    ListAsParts(ms, NO_TEXT, Punct(close));
    var last := ListTokens(rest, NO_TEXT) + [Punct(close)];
    var more := if rest == [] then [Punct(close)] else [Punct(',')] + last;
    hide ListTokens;
    ConsumeSplit(doc, pos, before, first + more, dbl);
    ConsumeSplit(doc, labelled, first, more, dbl);
    if rest == [] {
      NextIsConsumed(doc, value, Punct(close), dbl);
    } else {
      NextIsConsumed(doc, value, Punct(','), dbl);
      ConsumeSplit(doc, value, [Punct(',')], last, dbl);
    }
  }

  lemma LabelIsConsumed(doc: string, pos: nat, dbl: DoubleReader, name: string)
    requires pos <= |doc| && StringAt(doc, SkipSpaces(doc, pos)).Some? && StringAt(doc, SkipSpaces(doc, pos)).value.s == name
    requires Next(doc, StringAt(doc, SkipSpaces(doc, pos)).value.end, Punct(':')).Some?
    ensures Consume(doc, pos, Label(Name(name)), dbl) == Next(doc, StringAt(doc, SkipSpaces(doc, pos)).value.end, Punct(':'))
  {
    hide Consume, SkipSpaces, StringAt, Next;
    assert [Quoted(name), Punct(':')] == [Quoted(name)] + [Punct(':')];
    ConsumeSplit(doc, pos, [Quoted(name)], [Punct(':')], dbl);
    ConsumeOne(doc, pos, Quoted(name), dbl);
    NextIsConsumed(doc, StringAt(doc, SkipSpaces(doc, pos)).value.end, Punct(':'), dbl);
  }

  lemma {:induction false} ElementsAreLaid(doc: string, pos: nat, dbl: DoubleReader, index: nat)
    requires pos <= |doc| && ElementsAt(doc, pos, dbl, index).Some?
    ensures var r := ElementsAt(doc, pos, dbl, index).value;
            Laid(doc, pos, r.items, ']', dbl, r.end) && r.items != [] && forall k :: 0 <= k < |r.items| ==> r.items[k].key == Index(index + k)
    decreases |doc| - pos, 1
  {
    hide Consume, SkipSpaces, Next, Laid, ValueAt, Tokens, Spellable;
    var x := ValueAt(doc, pos, dbl).value;
    var m := Member(Index(index), x.v);
    ValueIsConsumed(doc, pos, dbl);
    NoLabel(doc, pos, index, dbl);
    if Next(doc, x.end, Punct(']')).Some? {
      assert [m] + [] == [m];
      ListJoins(doc, pos, m, [], ']', dbl, pos, x.end, Next(doc, x.end, Punct(']')).value);
    } else {
      var comma := Next(doc, x.end, Punct(',')).value;
      ElementsAreLaid(doc, comma, dbl, index + 1);
      var rest := ElementsAt(doc, comma, dbl, index + 1).value;
      ListJoins(doc, pos, m, rest.items, ']', dbl, pos, x.end, rest.end);
    }
  }

  lemma {:induction false} MembersAreLaid(doc: string, pos: nat, dbl: DoubleReader)
    requires pos <= |doc| && MembersAt(doc, pos, dbl).Some?
    ensures var r := MembersAt(doc, pos, dbl).value;
            Laid(doc, pos, r.items, '}', dbl, r.end) && r.items != [] && forall k :: 0 <= k < |r.items| ==> r.items[k].key.Name?
    decreases |doc| - pos, 1
  {
    hide Consume, SkipSpaces, Next, Laid, ValueAt, Tokens, Spellable, StringAt, Label;
    var name := StringAt(doc, SkipSpaces(doc, pos)).value;
    var colon := Next(doc, name.end, Punct(':')).value;
    var x := ValueAt(doc, colon, dbl).value;
    var m := Member(Name(name.s), x.v);
    LabelIsConsumed(doc, pos, dbl, name.s);
    ValueIsConsumed(doc, colon, dbl);
    if Next(doc, x.end, Punct('}')).Some? {
      assert [m] + [] == [m];
      ListJoins(doc, pos, m, [], '}', dbl, colon, x.end, Next(doc, x.end, Punct('}')).value);
    } else {
      var comma := Next(doc, x.end, Punct(',')).value;
      MembersAreLaid(doc, comma, dbl);
      var rest := MembersAt(doc, comma, dbl).value;
      ListJoins(doc, pos, m, rest.items, '}', dbl, colon, x.end, rest.end);
    }
  }

  /** A container is spelled by its brackets and its list. */
  lemma ContainerJoins(doc: string, pos: nat, v: Value, open: char, close: char, dbl: DoubleReader, end: nat)
    requires pos <= |doc| && IsContainer(v.payload) && Listed(v) == v.payload.items
    requires open == (if v.payload.Array? then '[' else '{') && close == (if v.payload.Array? then ']' else '}')
    requires Next(doc, pos, Punct(open)).Some? && Laid(doc, Next(doc, pos, Punct(open)).value, v.payload.items, close, dbl, end)
    ensures Consume(doc, pos, Tokens(v, NO_TEXT), dbl) == Some(end)
  {
    hide Consume, Next, ListTokens, AllSpellable;
    NextIsConsumed(doc, pos, Punct(open), dbl);
    var list := ListTokens(v.payload.items, NO_TEXT) + [Punct(close)];
    assert [Punct(open)] + ListTokens(v.payload.items, NO_TEXT) + [Punct(close)] == [Punct(open)] + list;
    ConsumeSplit(doc, pos, [Punct(open)], list, dbl);
  }

  lemma ListIsSpellable(items: seq<Member>)
    requires AllSpellable(items)
    ensures AllNullStrFree(items) && AllShaped(items)
  {
    hide NullStrFree, Shaped;
    forall k | 0 <= k < |items|
      ensures NullStrFreeMember(items[k]) && ShapedMember(items[k])
    {
      assert Spellable(items[k].value);
    }
  }

  lemma DenseIsListed(items: seq<Member>)
    requires AllSpellable(items) && forall k :: 0 <= k < |items| ==> items[k].key == Index(k)
    ensures Spellable(Plain(Array(items))) && Listed(Plain(Array(items))) == items
  {
    ListIsSpellable(items);
    var v := Plain(Array(items));
    assert Sorted(items);
    hide Spellable, AllSpellable, NullStrFree, AllNullStrFree, AllShaped;
    forall k | 0 <= k < |items|
      ensures Listed(v)[k] == items[k]
    {
      FindSorted(items, k);
    }
    assert |Listed(v)| == |items|;
  }

  lemma NamedIsListed(items: seq<Member>)
    requires AllSpellable(items) && forall k :: 0 <= k < |items| ==> items[k].key.Name?
    ensures Spellable(Plain(Object(items))) && Listed(Plain(Object(items))) == items
  {
    ListIsSpellable(items);
  }

  lemma OpensWith(doc: string, pos: nat, c: char)
    requires pos <= |doc| && SkipSpaces(doc, pos) < |doc| && At(doc, SkipSpaces(doc, pos)) == c
    ensures Next(doc, pos, Punct(c)) == Some(SkipSpaces(doc, pos) + 1)
  {
    hide SkipSpaces;
  }

  lemma ArrayIsConsumed(doc: string, pos: nat, dbl: DoubleReader)
    requires pos <= |doc| && At(doc, SkipSpaces(doc, pos)) == '[' && ArrayAt(doc, SkipSpaces(doc, pos) + 1, dbl).Some?
    ensures var r := ArrayAt(doc, SkipSpaces(doc, pos) + 1, dbl).value;
            && Spellable(Plain(Array(r.items)))
            && Consume(doc, pos, Tokens(Plain(Array(r.items)), NO_TEXT), dbl) == Some(r.end)
    decreases |doc| - pos, 0, 1
  {
    hide Consume, SkipSpaces, Next, Laid, ElementsAt, Tokens, Spellable, Listed;
    var p := SkipSpaces(doc, pos) + 1;
    var r := ArrayAt(doc, p, dbl).value;
    OpensWith(doc, pos, '[');
    if Next(doc, p, Punct(']')).Some? {
      EmptyIsLaid(doc, p, ']', dbl);
    } else {
      ElementsAreLaid(doc, p, dbl, 0);
    }
    LaidIsSpellable(doc, p, r.items, ']', dbl, r.end);
    DenseIsListed(r.items);
    ContainerJoins(doc, pos, Plain(Array(r.items)), '[', ']', dbl, r.end);
  }

  lemma LaidIsSpellable(doc: string, pos: nat, ms: seq<Member>, close: char, dbl: DoubleReader, end: nat)
    requires Laid(doc, pos, ms, close, dbl, end)
    ensures AllSpellable(ms)
  {
  }

  lemma ObjectIsConsumed(doc: string, pos: nat, dbl: DoubleReader)
    requires pos <= |doc| && At(doc, SkipSpaces(doc, pos)) == '{' && ObjectAt(doc, SkipSpaces(doc, pos) + 1, dbl).Some?
    ensures var r := ObjectAt(doc, SkipSpaces(doc, pos) + 1, dbl).value;
            && Spellable(Plain(Object(r.items)))
            && Consume(doc, pos, Tokens(Plain(Object(r.items)), NO_TEXT), dbl) == Some(r.end)
    decreases |doc| - pos, 0, 1
  {
    hide Consume, SkipSpaces, Next, Laid, MembersAt, Tokens, Spellable, Listed;
    var p := SkipSpaces(doc, pos) + 1;
    var r := ObjectAt(doc, p, dbl).value;
    OpensWith(doc, pos, '{');
    if Next(doc, p, Punct('}')).Some? {
      EmptyIsLaid(doc, p, '}', dbl);
    } else {
      MembersAreLaid(doc, p, dbl);
    }
    LaidIsSpellable(doc, p, r.items, '}', dbl, r.end);
    NamedIsListed(r.items);
    ContainerJoins(doc, pos, Plain(Object(r.items)), '{', '}', dbl, r.end);
  }

  lemma ScalarIsConsumed(doc: string, pos: nat, dbl: DoubleReader)
    requires pos <= |doc| && ValueAt(doc, pos, dbl).Some?
    requires At(doc, SkipSpaces(doc, pos)) != '{' && At(doc, SkipSpaces(doc, pos)) != '['
    ensures var x := ValueAt(doc, pos, dbl).value;
            Spellable(x.v) && Consume(doc, pos, Tokens(x.v, NO_TEXT), dbl) == Some(x.end)
  {
    hide Consume, SkipSpaces, Next, StringAt, NumberAt, DecodeNumber, ArrayAt, ObjectAt;
    var x, start := ValueAt(doc, pos, dbl).value, SkipSpaces(doc, pos);
    match At(doc, start) {
      case '"' => ConsumeOne(doc, pos, Quoted(StringAt(doc, start).value.s), dbl);
      case 't' => NextIsConsumed(doc, pos, TrueWord, dbl);
      case 'f' => NextIsConsumed(doc, pos, FalseWord, dbl);
      case 'n' => NextIsConsumed(doc, pos, NullWord, dbl);
      case _ => NumberIsConsumed(doc, pos, dbl, x.v.payload);
    }
  }

  /** What the descent reads is a text of the value it returns. */
  lemma {:induction false} ValueIsConsumed(doc: string, pos: nat, dbl: DoubleReader)
    requires pos <= |doc| && ValueAt(doc, pos, dbl).Some?
    ensures var x := ValueAt(doc, pos, dbl).value;
            Spellable(x.v) && Consume(doc, pos, Tokens(x.v, NO_TEXT), dbl) == Some(x.end)
    decreases |doc| - pos, 0, 2
  {
    hide Consume, SkipSpaces, Spellable, Tokens, ArrayAt, ObjectAt, StringAt, NumberAt;
    if At(doc, SkipSpaces(doc, pos)) == '[' {
      ArrayIsConsumed(doc, pos, dbl);
    } else if At(doc, SkipSpaces(doc, pos)) == '{' {
      ObjectIsConsumed(doc, pos, dbl);
    } else {
      ScalarIsConsumed(doc, pos, dbl);
    }
  }

  /** Every RFC 8259 text, whatever its layout, its escapes and its numbers' spelling, is
      parsed without error to the value it denotes, the last of equal names counting; one
      nested deeper than 1000 throws. */
  lemma EveryTextParses(doc: string, dbl: DoubleReader, root: Value)
    requires Denotes(doc, dbl).Some?
    ensures var v, r := Denotes(doc, dbl).value, Parse(doc, dbl, root);
            if Depth(v) > STACK_LIMIT then r.Thrown? else r.Read? && r.ok && r.errors == [] && Erase(r.value) == Normal(v)
  {
    hide ValueAt, Consume, ReadValue, Spellable, SkipSpaces;
    ValueIsConsumed(doc, 0, dbl);
    var x := ValueAt(doc, 0, dbl).value;
    ReadsBack(doc, dbl, 0, 0, root, x.v, NO_TEXT, x.end);
  }
}
