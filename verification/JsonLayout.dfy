/** Texts the writers' way: lexemes with space between them, and what every layout parses to. */
module JsonLayout {
  import opened Wrappers
  import opened JsonValue
  import opened JsonOrder
  import opened Decimal
  import opened JsonScanner
  import opened JsonStrings
  import opened JsonReading
  import opened JsonText
  import opened JsonGrammar
  import opened JsonRoundTrip

  datatype Piece = Gap(space: string) | Lex(l: Lexeme)

  function RenderPiece(p: Piece): string {
    match p
    case Gap(space) => space
    case Lex(l) => Render(l)
  }

  function RenderAll(ps: seq<Piece>): string {
    if ps == [] then [] else RenderPiece(ps[0]) + RenderAll(ps[1..])
  }

  /** The lexemes among the pieces. */
  function Lexemes(ps: seq<Piece>): seq<Lexeme> {
    if ps == [] then [] else (if ps[0].Lex? then [ps[0].l] else []) + Lexemes(ps[1..])
  }

  /** Only white space stands between the lexemes. */
  predicate Spaced(ps: seq<Piece>) {
    forall k :: 0 <= k < |ps| && ps[k].Gap? ==> AllSpace(ps[k].space)
  }

  predicate AllSpace(s: string) {
    forall k :: 0 <= k < |s| ==> IsSpace(s[k])
  }

  lemma {:induction false} RenderAppend(a: seq<Piece>, b: seq<Piece>)
    ensures RenderAll(a + b) == RenderAll(a) + RenderAll(b)
  {
    hide RenderPiece;
    if a == [] {
      assert a + b == b && RenderAll(a) == [];
    } else {
      RenderAppend(a[1..], b);
      assert (a + b)[0] == a[0] && (a + b)[1..] == a[1..] + b;
      Regroup3(RenderPiece(a[0]), RenderAll(a[1..]), RenderAll(b));
    }
  }

  lemma Regroup3<T>(a: seq<T>, b: seq<T>, c: seq<T>)
    ensures a + b + c == a + (b + c)
  {
  }

  lemma {:induction false} LexemesAppend(a: seq<Piece>, b: seq<Piece>)
    ensures Lexemes(a + b) == Lexemes(a) + Lexemes(b)
  {
    if a == [] {
      assert a + b == b;
    } else {
      LexemesAppend(a[1..], b);
      assert (a + b)[0] == a[0] && (a + b)[1..] == a[1..] + b;
      Regroup3(if a[0].Lex? then [a[0].l] else [], Lexemes(a[1..]), Lexemes(b));
    }
  }

  // ----- What is written is grammatical -----

  /** The text of a double is a number, not an integer, that is read back as it. */
  predicate Survives(d: Double, text: string, dbl: DoubleReader) {
    NumberAt(text, 0) == Some(|text|) && DecodeInteger(text) == None && dbl(text) == Some(d)
  }

  /** The C++ library gives back every double in the value. */
  predicate RealsSurvive(v: Value, fmt: DoubleWriter, dbl: DoubleReader) {
    match v.payload
    case Real(d) => Survives(d, fmt(d), dbl)
    case Array(items) => AllRealsSurvive(items, fmt, dbl)
    case Object(items) => AllRealsSurvive(items, fmt, dbl)
    case _ => true
  }

  predicate AllRealsSurvive(items: seq<Member>, fmt: DoubleWriter, dbl: DoubleReader) {
    forall k :: 0 <= k < |items| ==> RealsSurviveIn(items[k], fmt, dbl)
  }

  predicate RealsSurviveIn(m: Member, fmt: DoubleWriter, dbl: DoubleReader) {
    RealsSurvive(m.value, fmt, dbl)
  }

  /** A value whose text both writers are meant to write. */
  predicate Writable(v: Value, fmt: DoubleWriter, dbl: DoubleReader) {
    Spellable(v) && RealsSurvive(v, fmt, dbl)
  }

  predicate AllWritable(ms: seq<Member>, fmt: DoubleWriter, dbl: DoubleReader) {
    forall k :: 0 <= k < |ms| ==> Writable(ms[k].value, fmt, dbl)
  }

  lemma ListedIsWritable(v: Value, fmt: DoubleWriter, dbl: DoubleReader)
    requires Writable(v, fmt, dbl) && IsContainer(v.payload)
    ensures AllWritable(Listed(v), fmt, dbl)
  {
    hide Survives, NullStrFree, Shaped;
    var items, ms := v.payload.items, Listed(v);
    ListedIsSpellable(v);
    assert AllRealsSurvive(items, fmt, dbl);
    forall i | 0 <= i < |ms|
      ensures Writable(ms[i].value, fmt, dbl)
    {
      if v.payload.Object? {
        assert RealsSurviveIn(items[i], fmt, dbl);
      } else if Find(items, Index(i)).Some? {
        FoundIsElement(items, Index(i));
        var k :| 0 <= k < |items| && items[k] == Member(Index(i), ms[i].value);
        assert RealsSurviveIn(items[k], fmt, dbl);
      }
    }
  }

  /** What is written for the lexeme is a spelling of it. */
  predicate Readable(l: Lexeme, dbl: DoubleReader) {
    && KindOfLexeme(l) != ErrorToken
    && (l.Number? ==> MIN_INT64 <= l.i <= MAX_UINT64)
    && (l.RealText? ==> Survives(l.d, l.text, dbl))
  }

  predicate AllReadable(ls: seq<Lexeme>, dbl: DoubleReader) {
    forall k :: 0 <= k < |ls| ==> Readable(ls[k], dbl)
  }

  predicate IsNumeric(l: Lexeme) {
    l.Number? || l.RealText?
  }

  /** A lexeme that ends a number before it. */
  predicate Stops(l: Lexeme) {
    l.Punct? && !ContinuesNumber(l.c)
  }

  /** Every number is followed by a lexeme that ends it. */
  predicate Separated(ls: seq<Lexeme>) {
    forall k :: 0 <= k < |ls| - 1 && IsNumeric(ls[k]) ==> Stops(ls[k + 1])
  }

  lemma SeparatedJoin(a: seq<Lexeme>, b: seq<Lexeme>, dbl: DoubleReader)
    requires Separated(a) && Separated(b) && AllReadable(a, dbl) && AllReadable(b, dbl)
    requires a == [] || b == [] || !IsNumeric(a[|a| - 1]) || Stops(b[0])
    ensures Separated(a + b) && AllReadable(a + b, dbl)
  {
    hide Readable, Stops, IsNumeric;
  }

  lemma OneIsSeparated(l: Lexeme, dbl: DoubleReader)
    requires Readable(l, dbl)
    ensures Separated([l]) && AllReadable([l], dbl)
  {
  }

  lemma NothingIsSeparated(dbl: DoubleReader)
    ensures Separated([]) && AllReadable([], dbl)
  {
  }

  lemma LabelIsSeparated(key: Key, dbl: DoubleReader)
    ensures Separated(Label(key)) && AllReadable(Label(key), dbl)
    ensures Label(key) != [] ==> !IsNumeric(Label(key)[|Label(key)| - 1])
  {
  }

  lemma PartsAreShallower(ms: seq<Member>)
    requires ms != []
    ensures Depth(ms[0].value) <= DepthOfAll(ms) && DepthOfAll(ms[1..]) <= DepthOfAll(ms)
  {
  }

  lemma {:induction false} TokensAreSeparated(v: Value, fmt: DoubleWriter, dbl: DoubleReader)
    requires Writable(v, fmt, dbl)
    ensures Separated(Tokens(v, fmt)) && AllReadable(Tokens(v, fmt), dbl)
    decreases Depth(v), 0
  {
    hide Survives, ListTokens, Listed;
    if IsContainer(v.payload) {
      ListedIsShallower(v);
      ListedIsWritable(v, fmt, dbl);
      ListIsSeparated(Listed(v), fmt, dbl);
      var open := Punct(if v.payload.Array? then '[' else '{');
      var close := Punct(if v.payload.Array? then ']' else '}');
      OneIsSeparated(open, dbl);
      OneIsSeparated(close, dbl);
      SeparatedJoin([open], ListTokens(Listed(v), fmt), dbl);
      SeparatedJoin([open] + ListTokens(Listed(v), fmt), [close], dbl);
    }
  }

  lemma {:induction false} ListIsSeparated(ms: seq<Member>, fmt: DoubleWriter, dbl: DoubleReader)
    requires AllWritable(ms, fmt, dbl)
    ensures Separated(ListTokens(ms, fmt)) && AllReadable(ListTokens(ms, fmt), dbl)
    decreases DepthOfAll(ms), |ms| + 1
  {
    hide Writable, Survives, Tokens, DepthOfAll, Separated, AllReadable;
    if ms == [] {
      NothingIsSeparated(dbl);
    } else {
      PartsAreShallower(ms);
      TokensAreSeparated(ms[0].value, fmt, dbl);
      var before, first, more := Label(ms[0].key), Tokens(ms[0].value, fmt), ListTokens(ms[1..], fmt);
      ListIsSeparated(ms[1..], fmt, dbl);
      LabelIsSeparated(ms[0].key, dbl);
      SeparatedJoin(before, first, dbl);
      OneIsSeparated(Punct(','), dbl);
      SeparatedJoin([Punct(',')], more, dbl);
      NothingIsSeparated(dbl);
      SeparatedJoin(before + first, if |ms| == 1 then [] else [Punct(',')] + more, dbl);
    }
  }

  /** Digits of a text are the digits of a document that holds it. */
  lemma {:induction false} DigitsMove(doc: string, pos: nat, text: string, k: nat)
    requires IsAt(doc, pos, text) && k <= |text| && !IsDigit(At(doc, pos + |text|))
    ensures SkipDigits(doc, pos + k) == pos + SkipDigits(text, k)
    decreases |text| - k
  {
    if k < |text| {
      assert doc[pos + k] == text[k];
      if IsDigit(text[k]) {
        DigitsMove(doc, pos, text, k + 1);
      }
    }
  }

  lemma DigitsAtMove(doc: string, pos: nat, text: string, k: nat)
    requires IsAt(doc, pos, text) && DigitsAt(text, k).Some? && !IsDigit(At(doc, pos + |text|))
    ensures DigitsAt(doc, pos + k) == Some(pos + DigitsAt(text, k).value)
  {
    hide SkipDigits;
    assert doc[pos + k] == text[k];
    DigitsMove(doc, pos, text, k);
  }

  lemma CharacterMoves(doc: string, pos: nat, text: string, k: nat)
    requires IsAt(doc, pos, text) && k < |text|
    ensures At(doc, pos + k) == text[k]
  {
    assert doc[pos + k] == text[k];
  }

  /** A number on its own is one in a document, unless something goes on with it. */
  lemma NumberMoves(doc: string, pos: nat, text: string)
    requires IsAt(doc, pos, text) && NumberAt(text, 0) == Some(|text|) && !ContinuesNumber(At(doc, pos + |text|))
    ensures NumberAt(doc, pos) == Some(pos + |text|)
  {
    hide IsAt, DigitsAt;
    var at := if At(text, 0) == '-' then 1 else 0;
    CharacterMoves(doc, pos, text, 0);
    CharacterMoves(doc, pos, text, at);
    if At(text, at) != '0' {
      DigitsAtMove(doc, pos, text, at);
    }
    var whole := IntegerAt(text, at).value;
    if whole < |text| {
      CharacterMoves(doc, pos, text, whole);
      if At(text, whole) == '.' {
        DigitsAtMove(doc, pos, text, whole + 1);
      }
    }
    ExponentMoves(doc, pos, text, FractionAt(text, whole).value);
  }

  lemma ExponentMoves(doc: string, pos: nat, text: string, k: nat)
    requires IsAt(doc, pos, text) && k <= |text| && ExponentAt(text, k) == Some(|text|) && !ContinuesNumber(At(doc, pos + |text|))
    ensures ExponentAt(doc, pos + k) == Some(pos + |text|)
  {
    hide IsAt, DigitsAt;
    if k < |text| {
      CharacterMoves(doc, pos, text, k);
      if k + 1 < |text| {
        CharacterMoves(doc, pos, text, k + 1);
      }
      var digits := if At(text, k + 1) == '+' || At(text, k + 1) == '-' then k + 2 else k + 1;
      DigitsAtMove(doc, pos, text, digits);
    }
  }

  /** What is written is read as the lexeme, unless something goes on with a number. */
  lemma WrittenLexeme(doc: string, pos: nat, l: Lexeme, dbl: DoubleReader)
    requires IsAt(doc, pos, Render(l)) && Readable(l, dbl)
    requires IsNumeric(l) ==> !ContinuesNumber(At(doc, pos + |Render(l)|))
    ensures LexemeEnd(doc, pos, l, dbl) == Some(pos + |Render(l)|)
  {
    hide IntText, Quote, NumberAt, StringAt, DecodeInteger;
    match l
    case Quoted(s) => WrittenString(doc, pos, s);
    case Number(i) =>
      WrittenInteger(doc, pos, i);
      IntegerRoundTrip(i);
      TextIs(doc, pos, IntText(i));
    case RealText(_, text) =>
      NumberMoves(doc, pos, text);
      TextIs(doc, pos, text);
    case _ =>
  }

  lemma TextIs(doc: string, pos: nat, text: string)
    requires IsAt(doc, pos, text)
    ensures doc[pos..pos + |text|] == text
  {
    assert forall k :: 0 <= k < |text| ==> doc[pos + k] == text[k];
  }

  // ----- Any layout is consumed -----

  lemma {:induction false} SpacesAreSkipped(doc: string, pos: nat, space: string)
    requires IsAt(doc, pos, space) && AllSpace(space)
    ensures SkipSpaces(doc, pos) == SkipSpaces(doc, pos + |space|)
    decreases |space|
  {
    if space != [] {
      assert doc[pos] == space[0];
      assert space == [space[0]] + space[1..];
      IsAtSplit(doc, pos, [space[0]], space[1..]);
      SpacesAreSkipped(doc, pos + 1, space[1..]);
    }
  }

  /** What follows a number ends it. */
  lemma {:induction false} NextCharStops(doc: string, pos: nat, ps: seq<Piece>)
    requires IsAt(doc, pos, RenderAll(ps)) && Spaced(ps)
    requires Lexemes(ps) == [] || Stops(Lexemes(ps)[0])
    requires !ContinuesNumber(At(doc, pos + |RenderAll(ps)|))
    ensures !ContinuesNumber(At(doc, pos))
    decreases |ps|
  {
    hide Render, RenderAll, IsAt;
    if ps == [] {
      NothingRendered();
    } else {
      RestIsAt(doc, pos, ps);
      RestOfLexemes(ps);
      if ps[0].Gap? && ps[0].space == [] {
        NextCharStops(doc, pos, ps[1..]);
      } else {
        PieceStartsAt(doc, pos, ps[0]);
      }
    }
  }

  lemma NothingRendered()
    ensures RenderAll([]) == []
  {
  }

  /** A piece that is space, or a lexeme that ends numbers, starts with what ends them. */
  lemma PieceStartsAt(doc: string, pos: nat, piece: Piece)
    requires IsAt(doc, pos, RenderPiece(piece))
    requires if piece.Gap? then piece.space != [] && AllSpace(piece.space) else Stops(piece.l)
    ensures !ContinuesNumber(At(doc, pos))
  {
    assert doc[pos] == RenderPiece(piece)[0];
  }

  lemma {:induction false} LayoutConsumes(doc: string, pos: nat, ps: seq<Piece>, dbl: DoubleReader)
    requires IsAt(doc, pos, RenderAll(ps)) && Spaced(ps)
    requires Separated(Lexemes(ps)) && AllReadable(Lexemes(ps), dbl)
    requires !ContinuesNumber(At(doc, pos + |RenderAll(ps)|))
    ensures pos <= |doc| && Consume(doc, pos, Lexemes(ps), dbl).Some?
    decreases |ps|
  {
    hide RenderAll, RenderPiece, Lexemes, Consume, SkipSpaces, IsAt, Separated, AllReadable, At, Render, AllSpace, ContinuesNumber;
    if ps == [] {
      NothingConsumed(doc, pos, dbl);
    } else {
      var rest := ps[1..];
      RestIsAt(doc, pos, ps);
      RestOfLexemes(ps);
      var next := pos + |RenderPiece(ps[0])|;
      if ps[0].Lex? {
        LexemeIsConsumed(doc, pos, ps[0].l, ps, dbl);
        LayoutConsumes(doc, next, rest, dbl);
        ConsumeSplit(doc, pos, [ps[0].l], Lexemes(rest), dbl);
      } else {
        SpacesAreSkipped(doc, pos, ps[0].space);
        LayoutConsumes(doc, next, rest, dbl);
        SameFrom(doc, pos, next, Lexemes(rest), dbl);
      }
    }
  }

  lemma NothingConsumed(doc: string, pos: nat, dbl: DoubleReader)
    requires IsAt(doc, pos, RenderAll([]))
    ensures pos <= |doc| && Consume(doc, pos, Lexemes([]), dbl).Some?
  {
  }

  lemma RestOfLexemes(ps: seq<Piece>)
    requires ps != []
    ensures ps[0].Gap? ==> RenderPiece(ps[0]) == ps[0].space && Lexemes(ps) == Lexemes(ps[1..])
    ensures ps[0].Lex? ==> RenderPiece(ps[0]) == Render(ps[0].l) && Lexemes(ps) == [ps[0].l] + Lexemes(ps[1..])
  {
    hide Render;
  }

  lemma RestIsAt(doc: string, pos: nat, ps: seq<Piece>)
    requires ps != [] && IsAt(doc, pos, RenderAll(ps))
    ensures pos + |RenderPiece(ps[0])| <= |doc|
    ensures IsAt(doc, pos, RenderPiece(ps[0])) && IsAt(doc, pos + |RenderPiece(ps[0])|, RenderAll(ps[1..]))
    ensures pos + |RenderAll(ps)| == pos + |RenderPiece(ps[0])| + |RenderAll(ps[1..])|
  {
    hide Render, RenderPiece;
    var first, rest := RenderPiece(ps[0]), RenderAll(ps[1..]);
    assert RenderAll(ps) == first + rest;
    hide RenderAll;
    IsAtSplit(doc, pos, first, rest);
  }

  lemma SameFrom(doc: string, p: nat, q: nat, ls: seq<Lexeme>, dbl: DoubleReader)
    requires p <= |doc| && q <= |doc| && SkipSpaces(doc, p) == SkipSpaces(doc, q) && Consume(doc, q, ls, dbl).Some?
    ensures Consume(doc, p, ls, dbl).Some?
  {
    hide LexemeEnd, SkipSpaces;
  }

  lemma LexemeIsConsumed(doc: string, pos: nat, l: Lexeme, ps: seq<Piece>, dbl: DoubleReader)
    requires ps != [] && ps[0] == Lex(l) && IsAt(doc, pos, RenderAll(ps)) && Spaced(ps)
    requires Separated(Lexemes(ps)) && AllReadable(Lexemes(ps), dbl)
    requires !ContinuesNumber(At(doc, pos + |RenderAll(ps)|))
    ensures pos <= |doc| && Consume(doc, pos, [l], dbl) == Some(pos + |Render(l)|)
    ensures IsAt(doc, pos + |Render(l)|, RenderAll(ps[1..]))
    ensures Separated(Lexemes(ps[1..])) && AllReadable(Lexemes(ps[1..]), dbl)
  {
    hide RenderAll, RenderPiece, Lexemes, Consume, SkipSpaces, IsAt, At, Render, ContinuesNumber;
    RestIsAt(doc, pos, ps);
    RestOfLexemes(ps);
    RestIsSeparated(l, Lexemes(ps[1..]), dbl);
    if IsNumeric(l) {
      NextCharStops(doc, pos + |Render(l)|, ps[1..]);
    }
    WrittenLexeme(doc, pos, l, dbl);
    NoSpaceBefore(doc, pos, l, dbl);
    ConsumeOne(doc, pos, l, dbl);
  }

  lemma RestIsSeparated(l: Lexeme, rest: seq<Lexeme>, dbl: DoubleReader)
    requires Separated([l] + rest) && AllReadable([l] + rest, dbl)
    ensures Separated(rest) && AllReadable(rest, dbl) && Readable(l, dbl)
    ensures IsNumeric(l) ==> rest == [] || Stops(rest[0])
  {
    hide Readable, Stops, IsNumeric;
    var all := [l] + rest;
    assert all[0] == l && forall k :: 0 <= k < |rest| ==> rest[k] == all[k + 1];
    assert rest != [] ==> all[1] == rest[0];
  }

  lemma NoSpaceBefore(doc: string, pos: nat, l: Lexeme, dbl: DoubleReader)
    requires LexemeEnd(doc, pos, l, dbl).Some? && Readable(l, dbl)
    ensures pos <= |doc| && SkipSpaces(doc, pos) == pos
  {
    hide LexemeEnd;
    LexemeIsToken(doc, pos, l, dbl);
  }

  /** Every layout of a writable value parses to its normal form, whatever was in the
      root before, unless the value is nested too deeply. */
  lemma LayoutParses(ps: seq<Piece>, v: Value, fmt: DoubleWriter, dbl: DoubleReader, root: Value)
    requires Writable(v, fmt, dbl) && Spaced(ps) && Lexemes(ps) == Tokens(v, fmt)
    ensures var r := Parse(RenderAll(ps), dbl, root);
            if Depth(v) > STACK_LIMIT then r.Thrown? else r.Read? && r.ok && r.errors == [] && Erase(r.value) == Normal(v)
  {
    var doc := RenderAll(ps);
    TokensAreSeparated(v, fmt, dbl);
    LayoutConsumes(doc, 0, ps, dbl);
    ReadsBack(doc, dbl, 0, 0, root, v, fmt, Consume(doc, 0, Tokens(v, fmt), dbl).value);
  }

  /** Two layouts of the same value parse to the same content. */
  lemma LayoutIndependence(ps: seq<Piece>, qs: seq<Piece>, v: Value, fmt: DoubleWriter, dbl: DoubleReader, root: Value)
    requires Writable(v, fmt, dbl) && Depth(v) <= STACK_LIMIT
    requires Spaced(ps) && Lexemes(ps) == Tokens(v, fmt) && Spaced(qs) && Lexemes(qs) == Tokens(v, fmt)
    ensures var r, s := Parse(RenderAll(ps), dbl, root), Parse(RenderAll(qs), dbl, root);
            r.Read? && s.Read? && r.ok && s.ok && Erase(r.value) == Erase(s.value)
  {
    LayoutParses(ps, v, fmt, dbl, root);
    LayoutParses(qs, v, fmt, dbl, root);
  }
}
