/** The fast writer: a value's lexemes and nothing between them. */
module JsonFastWriter {
  import opened JsonValue
  import opened Decimal
  import opened JsonStrings
  import opened JsonText
  import opened JsonRoundTrip
  import opened JsonLayout
  import opened JsonFaithful

  /** One more member in a list. */
  lemma {:induction false} ListTokensGrow(ms: seq<Member>, i: nat, fmt: DoubleWriter)
    requires i < |ms|
    ensures ListTokens(ms[..i + 1], fmt)
         == ListTokens(ms[..i], fmt) + (if i > 0 then [Punct(',')] else []) + Label(ms[i].key) + Tokens(ms[i].value, fmt)
    decreases i
  {
    hide Tokens, Label;
    var first := Label(ms[0].key) + Tokens(ms[0].value, fmt);
    if i == 0 {
      OneMember(ms[0], fmt);
      assert ms[..1] == [ms[0]] && ms[..0] == [];
      assert [] + [] + Label(ms[0].key) == Label(ms[0].key);
    } else {
      ListTokensGrow(ms[1..], i - 1, fmt);
      assert ms[..i + 1][1..] == ms[1..][..i] && ms[..i][1..] == ms[1..][..i - 1];
      if i == 1 {
        OneMember(ms[0], fmt);
        assert ms[..1] == [ms[0]] && ms[1..][..0] == [];
      }
    }
  }

  lemma OneMember(m: Member, fmt: DoubleWriter)
    ensures ListTokens([m], fmt) == Label(m.key) + Tokens(m.value, fmt)
  {
    hide Tokens, Label;
  }

  lemma RenderOneMore(ls: seq<Lexeme>, l: Lexeme)
    ensures RenderAll(Tight(ls + [l])) == RenderAll(Tight(ls)) + Render(l)
  {
    hide Render;
    TightAppend(ls, [l]);
    assert Tight([l]) == [Lex(l)];
    RenderAppend(Tight(ls), [Lex(l)]);
    assert RenderAll([Lex(l)]) == RenderPiece(Lex(l)) + RenderAll([]);
  }

  class FastWriter {
    const fmt: DoubleWriter
    var document: string

    /** The lexemes the document consists of. */
    ghost var written: seq<Lexeme>

    ghost predicate Valid()
      reads this
    {
      document == RenderAll(Tight(written))
    }

    constructor (fmt: DoubleWriter)
      ensures Valid() && this.fmt == fmt
    {
      this.fmt := fmt;
      document, written := [], [];
    }

    method Emit(text: string, ghost l: Lexeme)
      requires Valid() && text == Render(l)
      modifies this
      ensures Valid() && written == old(written) + [l]
    {
      RenderOneMore(written, l);
      document := document + text;
      written := written + [l];
    }

    /** Writes a value and a line feed. */
    method Write(root: Value) returns (text: string)
      requires WellFormed(root)
      modifies this
      ensures text == RenderAll(FastPieces(root, fmt))
    {
      document, written := [], [];
      WriteValue(root);
      assert [] + Tokens(root, fmt) == Tokens(root, fmt);
      RenderAppend(Tight(Tokens(root, fmt)), [Gap("\n")]);
      assert RenderAll([Gap("\n")]) == "\n" + RenderAll([]);
      document := document + "\n";
      text := document;
    }

    method WriteValue(value: Value)
      requires Valid() && WellFormed(value)
      modifies this
      ensures Valid() && written == old(written) + Tokens(value, fmt)
      decreases Depth(value), 1
    {
      match value.payload {
        case Null => Emit("null", NullWord);
        case Int(i) =>
          var text := IntToString(i as int64);
          Emit(text, Number(i));
        case UInt(u) =>
          var text := UIntToText(u as uint64);
          Emit(text, Number(u));
        case Real(d) => Emit(fmt(d), RealText(d, fmt(d)));
        case NullStr =>
        case Str(s) =>
          var text := ValueToQuotedStringN(s);
          Emit(text, Quoted(s));
        case Bool(b) => Emit(if b then "true" else "false", if b then TrueWord else FalseWord);
        case Array(_) => WriteArray(value);
        case Object(_) => WriteObject(value);
      }
    }

    method WriteArray(value: Value)
      requires Valid() && WellFormed(value) && value.payload.Array?
      modifies this
      ensures Valid() && written == old(written) + Tokens(value, fmt)
      decreases Depth(value), 0
    {
      hide RenderAll, ListTokens, Tight, Find, Label;
      ghost var ms := Listed(value);
      ListedIsShallower(value);
      Emit("[", Punct('['));
      ghost var before := written;
      var size := Count(value);
      NoMembersYet(ms, fmt);
      for index := 0 to size
        invariant Valid() && written == before + ListTokens(ms[..index], fmt)
      {
        Separate(index);
        DepthOfElement(ms, index);
        SlotsAreWellFormed(value, index);
        WriteValue(Slot(value, index));
        IndexHasNoLabel(index);
        NextMember(before, ms, index, fmt);
      }
      assert ms[..size] == ms;
      Emit("]", Punct(']'));
    }

    /** The comma before every member but the first. */
    method Separate(index: nat)
      requires Valid()
      modifies this
      ensures Valid() && written == old(written) + (if index > 0 then [Punct(',')] else [])
    {
      if index > 0 {
        Emit(",", Punct(','));
      }
    }

    method WriteObject(value: Value)
      requires Valid() && WellFormed(value) && value.payload.Object?
      modifies this
      ensures Valid() && written == old(written) + Tokens(value, fmt)
      decreases Depth(value), 0
    {
      hide RenderAll, ListTokens, Tight, Find;
      var members := GetMemberNames(value);
      ghost var ms := Listed(value);
      ListedIsShallower(value);
      Emit("{", Punct('{'));
      ghost var before := written;
      NoMembersYet(ms, fmt);
      for k := 0 to |members|
        invariant Valid() && written == before + ListTokens(ms[..k], fmt)
      {
        Separate(k);
        WriteName(members[k]);
        DepthOfElement(ms, k);
        FindSorted(ms, k);
        assert AllWellFormed(ms) && WellFormedMember(ms[k]);
        WriteValue(Find(value.payload.items, Name(members[k])).value);
        NextMember(before, ms, k, fmt);
      }
      assert ms[..|members|] == ms;
      Emit("}", Punct('}'));
    }

    method WriteName(name: string)
      requires Valid()
      modifies this
      ensures Valid() && written == old(written) + Label(Name(name))
    {
      hide RenderAll, Tight;
      var text := ValueToQuotedStringN(name);
      Emit(text, Quoted(name));
      Emit(":", Punct(':'));
    }
  }

  lemma NoMembersYet(ms: seq<Member>, fmt: DoubleWriter)
    ensures ListTokens(ms[..0], fmt) == []
  {
  }

  lemma IndexHasNoLabel(i: nat)
    ensures Label(Index(i)) == []
  {
  }

  /** What has been written once one more member has. */
  lemma NextMember(before: seq<Lexeme>, ms: seq<Member>, i: nat, fmt: DoubleWriter)
    requires i < |ms|
    ensures before + ListTokens(ms[..i], fmt) + (if i > 0 then [Punct(',')] else []) + Label(ms[i].key) + Tokens(ms[i].value, fmt)
         == before + ListTokens(ms[..i + 1], fmt)
  {
    hide ListTokens, Tokens, Label;
    ListTokensGrow(ms, i, fmt);
    Regroup5(before, ListTokens(ms[..i], fmt), if i > 0 then [Punct(',')] else [], Label(ms[i].key), Tokens(ms[i].value, fmt));
  }

  lemma Regroup5<T>(a: seq<T>, b: seq<T>, c: seq<T>, d: seq<T>, e: seq<T>)
    ensures a + b + c + d + e == a + (b + c + d + e)
  {
  }

  lemma SlotsAreWellFormed(v: Value, i: nat)
    requires WellFormed(v) && v.payload.Array?
    ensures WellFormed(Slot(v, i))
  {
    var items := v.payload.items;
    if Find(items, Index(i)).Some? {
      FoundIsElement(items, Index(i));
      var k :| 0 <= k < |items| && items[k] == Member(Index(i), Slot(v, i));
      assert AllWellFormed(items) && WellFormedMember(items[k]);
    }
  }

  /** The names of an object's members, in the map's order. */
  method GetMemberNames(v: Value) returns (names: seq<string>)
    requires WellFormed(v) && v.payload.Object?
    ensures |names| == |v.payload.items| && forall k :: 0 <= k < |names| ==> v.payload.items[k].key == Name(names[k])
    ensures forall j, k :: 0 <= j < k < |names| ==> StringBefore(names[j], names[k])
  {
    names := [];
    for k := 0 to |v.payload.items|
      invariant |names| == k && forall j :: 0 <= j < k ==> v.payload.items[j].key == Name(names[j])
    {
      names := names + [v.payload.items[k].key.s];
    }
    forall j, k | 0 <= j < k < |names|
      ensures StringBefore(names[j], names[k])
    {
      NamesIncrease(v, j, k);
    }
  }

  lemma NamesIncrease(v: Value, j: nat, k: nat)
    requires WellFormed(v) && v.payload.Object? && j < k < |v.payload.items|
    ensures StringBefore(v.payload.items[j].key.s, v.payload.items[k].key.s)
  {
    hide AllWellFormed;
    KeyLessMeans(v.payload.items[j].key, v.payload.items[k].key);
  }

  lemma {:induction false} ListTokensPrefix(ms: seq<Member>, i: nat, j: nat, fmt: DoubleWriter)
    requires i <= j <= |ms|
    ensures ListTokens(ms[..i], fmt) <= ListTokens(ms[..j], fmt)
    decreases j - i
  {
    hide ListTokens, Tokens, Label;
    if i < j {
      ListTokensPrefix(ms, i, j - 1, fmt);
      ListTokensGrow(ms, j - 1, fmt);
    }
  }

  /** Where a member's name stands among an object's lexemes. */
  function NameAt(v: Value, fmt: DoubleWriter, k: nat): nat
    requires v.payload.Object? && k < |v.payload.items|
  {
    1 + |ListTokens(v.payload.items[..k], fmt)| + (if k > 0 then 1 else 0)
  }

  /** Names are written in increasing order, one after the other. */
  lemma WrittenInOrder(v: Value, fmt: DoubleWriter, j: nat, k: nat)
    requires WellFormed(v) && v.payload.Object? && j < k < |v.payload.items|
    ensures StringBefore(v.payload.items[j].key.s, v.payload.items[k].key.s)
    ensures NameAt(v, fmt, j) < NameAt(v, fmt, k) < |Tokens(v, fmt)|
    ensures Tokens(v, fmt)[NameAt(v, fmt, j)] == Quoted(v.payload.items[j].key.s)
    ensures Tokens(v, fmt)[NameAt(v, fmt, k)] == Quoted(v.payload.items[k].key.s)
  {
    NamesIncrease(v, j, k);
    NameIsAt(v, fmt, j);
    NameIsAt(v, fmt, k);
    ListTokensPrefix(v.payload.items, j + 1, k, fmt);
    ListTokensGrow(v.payload.items, j, fmt);
    hide ListTokens, Tokens, WellFormed, StringBefore;
  }

  lemma NameIsAt(v: Value, fmt: DoubleWriter, k: nat)
    requires WellFormed(v) && v.payload.Object? && k < |v.payload.items|
    ensures NameAt(v, fmt, k) < |Tokens(v, fmt)| && Tokens(v, fmt)[NameAt(v, fmt, k)] == Quoted(v.payload.items[k].key.s)
  {
    hide ListTokens, AllWellFormed, Sorted;
    var ms := v.payload.items;
    ListTokensGrow(ms, k, fmt);
    ListTokensPrefix(ms, k + 1, |ms|, fmt);
    assert ms[..|ms|] == ms;
    NameFirst(ms[k], fmt);
  }

  lemma NameFirst(m: Member, fmt: DoubleWriter)
    requires m.key.Name?
    ensures Label(m.key) != [] && Label(m.key)[0] == Quoted(m.key.s)
  {
  }
}
