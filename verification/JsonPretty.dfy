/**
 The styled text, from the value alone: what goes on one line, where lines break, how far
 they are indented, and that this is a layout of what the value says.
 */
module JsonPretty {
  import opened Wrappers
  import opened JsonValue
  import opened JsonOrder
  import opened Decimal
  import opened JsonScanner
  import opened JsonStrings
  import opened JsonReading
  import opened JsonText
  import opened JsonRoundTrip
  import opened JsonLayout
  import opened JsonFaithful
  import opened JsonFastWriter

  const RIGHT_MARGIN: nat := 74
  const STEP: string := "   "

  /** A value that is written without a line of its own for any child. */
  predicate Flat(v: Value) {
    IsContainer(v.payload) ==> Listed(v) == []
  }

  function FlatText(v: Value, fmt: DoubleWriter): string {
    match v.payload
    case Null => "null"
    case Int(i) => IntText(i)
    case UInt(u) => IntText(u)
    case Real(d) => fmt(d)
    case NullStr => ""
    case Str(s) => Quote(s)
    case Bool(b) => if b then "true" else "false"
    case Array(_) => "[]"
    case Object(_) => "{}"
  }

  /** The first `n` elements with a comma and a space between them. */
  function Joined(ms: seq<Member>, fmt: DoubleWriter, n: nat): string
    requires n <= |ms|
  {
    if n == 0 then [] else Joined(ms, fmt, n - 1) + (if n > 1 then ", " else []) + FlatText(ms[n - 1].value, fmt)
  }

  function Line(v: Value, fmt: DoubleWriter): string {
    "[ " + Joined(Listed(v), fmt, |Listed(v)|) + " ]"
  }

  /** An array goes on one line if no element needs lines and the line stays within the
      margin. */
  predicate OnOneLine(v: Value, fmt: DoubleWriter) {
    && v.payload.Array? && 3 * |Listed(v)| < RIGHT_MARGIN && |Line(v, fmt)| < RIGHT_MARGIN
    && forall i :: 0 <= i < |Listed(v)| ==> Flat(Listed(v)[i].value)
  }

  /** What separates a text from the next line's: nothing after a space. */
  function Break(before: string, indent: string): string {
    if before == [] || before[|before| - 1] == '\n' then indent
    else if before[|before| - 1] == ' ' then []
    else ['\n'] + indent
  }

  function Open(v: Value): char {
    if v.payload.Array? then '[' else '{'
  }

  function Close(v: Value): char {
    if v.payload.Array? then ']' else '}'
  }

  function PrettyLabel(key: Key): string {
    if key.Name? then Quote(CStr(key.s)) + " : " else []
  }

  function Pretty(v: Value, fmt: DoubleWriter, indent: string): string
    decreases Depth(v), 0
  {
    ListedIsShallower(v);
    if Flat(v) then FlatText(v, fmt)
    else if OnOneLine(v, fmt) then Line(v, fmt)
    else
      var body := [Open(v)] + PrettyItems(Listed(v), fmt, indent + STEP, |Listed(v)|);
      body + Break(body, indent) + [Close(v)]
  }

  /** The first `n` members, each on a new line. */
  function PrettyItems(ms: seq<Member>, fmt: DoubleWriter, indent: string, n: nat): string
    requires n <= |ms|
    decreases DepthOfAll(ms), n + 1
  {
    if n == 0 then []
    else
      DepthOfElement(ms, n - 1);
      PrettyItems(ms, fmt, indent, n - 1) + (if n > 1 then [','] else []) + (['\n'] + indent)
        + PrettyLabel(ms[n - 1].key) + Pretty(ms[n - 1].value, fmt, indent)
  }

  function StyledText(v: Value, fmt: DoubleWriter): string {
    Pretty(v, fmt, []) + ['\n']
  }

  // ----- One member after another -----

  /** A container's text up to its member `n`, the comma before that included. */
  function ItemsSoFar(open: char, ms: seq<Member>, fmt: DoubleWriter, indent: string, n: nat): string
    requires n <= |ms|
  {
    [open] + PrettyItems(ms, fmt, indent, n) + (if n > 0 then [','] else [])
  }

  lemma NoItemsYet(ms: seq<Member>, fmt: DoubleWriter, indent: string)
    ensures PrettyItems(ms, fmt, indent, 0) == []
  {
  }

  /** What has been written once member `n` has, and the comma that follows it. */
  lemma NextLine(before: string, open: char, ms: seq<Member>, fmt: DoubleWriter, indent: string, n: nat)
    requires n < |ms| && open != ' ' && open != '\n'
    ensures var text := before + ItemsSoFar(open, ms, fmt, indent, n);
            text + Break(text, indent) + PrettyLabel(ms[n].key) + Pretty(ms[n].value, fmt, indent)
              == before + [open] + PrettyItems(ms, fmt, indent, n + 1)
    ensures before + [open] + PrettyItems(ms, fmt, indent, n + 1) + [','] == before + ItemsSoFar(open, ms, fmt, indent, n + 1)
  {
    hide Pretty, PrettyLabel;
    var text := before + ItemsSoFar(open, ms, fmt, indent, n);
    var items, comma := PrettyItems(ms, fmt, indent, n), if n > 0 then [','] else [];
    assert text[|text| - 1] == if n > 0 then ',' else open;
    assert Break(text, indent) == ['\n'] + indent;
    assert PrettyItems(ms, fmt, indent, n + 1)
        == items + comma + (['\n'] + indent) + PrettyLabel(ms[n].key) + Pretty(ms[n].value, fmt, indent);
    assert text == before + [open] + items + comma;
  }

  lemma NextElement(before: string, ms: seq<Member>, fmt: DoubleWriter, indent: string, n: nat)
    requires n < |ms| && ms[n].key.Index?
    ensures var text := before + ItemsSoFar('[', ms, fmt, indent, n);
            text + Break(text, indent) + Pretty(ms[n].value, fmt, indent) == before + ['['] + PrettyItems(ms, fmt, indent, n + 1)
    ensures before + ['['] + PrettyItems(ms, fmt, indent, n + 1) + [','] == before + ItemsSoFar('[', ms, fmt, indent, n + 1)
  {
    hide Pretty, PrettyItems, Break, ItemsSoFar;
    var text := before + ItemsSoFar('[', ms, fmt, indent, n);
    NextLine(before, '[', ms, fmt, indent, n);
    assert text + Break(text, indent) + PrettyLabel(ms[n].key) == text + Break(text, indent);
  }

  lemma FlatIsPretty(v: Value, fmt: DoubleWriter, indent: string)
    requires Flat(v)
    ensures Pretty(v, fmt, indent) == FlatText(v, fmt)
  {
  }

  /** After a label, or after the indentation, a value need not break the line. */
  lemma ReadyAfterLabel(text: string, indent: string, key: Key)
    requires indent != [] && indent[|indent| - 1] == ' '
    ensures var line := text + Break(text, indent) + PrettyLabel(key); Break(line, indent) == []
    ensures var line := text + Break(text, indent); Break(line, indent) == []
  {
    hide Quote, CStr;
    var line := text + Break(text, indent);
    assert line[|line| - 1] == ' ';
    if key.Name? {
      var whole := line + PrettyLabel(key);
      assert whole[|whole| - 1] == PrettyLabel(key)[|PrettyLabel(key)| - 1];
    }
  }

  /** A text breaks the line as its last part does. */
  lemma BreakAppend(before: string, body: string, indent: string)
    requires body != []
    ensures Break(before + body, indent) == Break(body, indent)
  {
    assert (before + body)[|before + body| - 1] == body[|body| - 1];
  }

  lemma Closes(v: Value, fmt: DoubleWriter, before: string, indent: string)
    requires !Flat(v) && !OnOneLine(v, fmt)
    ensures var text := before + [Open(v)] + PrettyItems(Listed(v), fmt, indent + STEP, |Listed(v)|);
            text + Break(text, indent) + [Close(v)] == before + Pretty(v, fmt, indent)
  {
    hide PrettyItems, Break, Flat, OnOneLine, Listed;
    var body := [Open(v)] + PrettyItems(Listed(v), fmt, indent + STEP, |Listed(v)|);
    BreakAppend(before, body, indent);
    assert before + [Open(v)] + PrettyItems(Listed(v), fmt, indent + STEP, |Listed(v)|) == before + body;
    assert Pretty(v, fmt, indent) == body + Break(body, indent) + [Close(v)];
  }

  lemma NoneJoined(ms: seq<Member>, fmt: DoubleWriter)
    ensures Joined(ms, fmt, 0) == []
  {
  }

  lemma OneMoreJoined(ms: seq<Member>, fmt: DoubleWriter, i: nat)
    requires i < |ms|
    ensures |Joined(ms, fmt, i + 1)| == |Joined(ms, fmt, i)| + (if i > 0 then 2 else 0) + |FlatText(ms[i].value, fmt)|
  {
    hide FlatText;
  }

  // ----- When an array fits -----

  lemma {:induction false} JoinedIsLong(ms: seq<Member>, fmt: DoubleWriter, n: nat)
    requires 0 < n <= |ms| && forall i :: 0 <= i < |ms| ==> FlatText(ms[i].value, fmt) != []
    ensures |Joined(ms, fmt, n)| >= 3 * n - 2
    decreases n
  {
    hide FlatText;
    if n > 1 {
      JoinedIsLong(ms, fmt, n - 1);
    }
  }

  /** Counting the elements first never changes the answer where each has a text: an array
      goes on one line if and only if no element needs lines and the line fits. */
  lemma OneLineIffItFits(v: Value, fmt: DoubleWriter)
    requires v.payload.Array? && forall i :: 0 <= i < |Listed(v)| ==> FlatText(Listed(v)[i].value, fmt) != []
    ensures OnOneLine(v, fmt) <==> |Line(v, fmt)| < RIGHT_MARGIN && forall i :: 0 <= i < |Listed(v)| ==> Flat(Listed(v)[i].value)
  {
    hide Joined, Listed, Flat, FlatText;
    if Listed(v) != [] {
      JoinedIsLong(Listed(v), fmt, |Listed(v)|);
    }
  }

  // ----- It is a layout -----

  /** The text is these lexemes with white space between them. */
  ghost predicate IsLayout(text: string, ls: seq<Lexeme>) {
    exists ps :: text == RenderAll(ps) && Spaced(ps) && Lexemes(ps) == ls
  }

  lemma LayoutAppend(text: string, ls: seq<Lexeme>, more: string, ms: seq<Lexeme>)
    requires IsLayout(text, ls) && IsLayout(more, ms)
    ensures IsLayout(text + more, ls + ms)
  {
    hide RenderAll, Lexemes, AllSpace;
    var ps :| text == RenderAll(ps) && Spaced(ps) && Lexemes(ps) == ls;
    var qs :| more == RenderAll(qs) && Spaced(qs) && Lexemes(qs) == ms;
    RenderAppend(ps, qs);
    LexemesAppend(ps, qs);
    assert Spaced(ps + qs);
  }

  lemma SpaceIsLayout(space: string)
    requires AllSpace(space)
    ensures IsLayout(space, [])
  {
    assert RenderAll([Gap(space)]) == space + RenderAll([]);
    assert Lexemes([Gap(space)]) == [] + Lexemes([]);
  }

  lemma LexemeIsLayout(l: Lexeme)
    ensures IsLayout(Render(l), [l])
  {
    hide Render;
    assert RenderAll([Lex(l)]) == Render(l) + RenderAll([]);
    assert Lexemes([Lex(l)]) == [l] + Lexemes([]);
  }

  lemma ThenSpace(text: string, ls: seq<Lexeme>, space: string)
    requires IsLayout(text, ls) && AllSpace(space)
    ensures IsLayout(text + space, ls)
  {
    hide IsLayout, AllSpace;
    SpaceIsLayout(space);
    LayoutAppend(text, ls, space, []);
    assert ls + [] == ls;
  }

  lemma ThenLexeme(text: string, ls: seq<Lexeme>, l: Lexeme)
    requires IsLayout(text, ls)
    ensures IsLayout(text + Render(l), ls + [l])
  {
    hide IsLayout, Render;
    LexemeIsLayout(l);
    LayoutAppend(text, ls, Render(l), [l]);
  }

  lemma BreakIsSpace(before: string, indent: string)
    requires AllSpace(indent)
    ensures AllSpace(Break(before, indent)) && AllSpace(['\n'] + indent) && AllSpace(indent + STEP)
  {
  }

  lemma {:induction false} FindClipped(items: seq<Member>, i: nat)
    ensures Find(ClipAll(items), Index(i)) == match Find(items, Index(i)) case None => None case Some(x) => Some(Clip(x))
  {
    if items != [] && items[0].key != Index(i) {
      FindClipped(items[1..], i);
      assert ClipAll(items)[1..] == ClipAll(items[1..]);
    }
  }

  /** Clipping commutes with listing. */
  lemma ListedClipped(v: Value)
    requires WellFormed(v) && IsContainer(v.payload)
    ensures Listed(Clip(v)) == ClipAll(Listed(v))
  {
    if v.payload.Array? {
      var items, ms, ns := v.payload.items, Listed(Clip(v)), ClipAll(Listed(v));
      if items != [] {
        ClipAllAt(items, |items| - 1);
      }
      forall i | 0 <= i < |ms|
        ensures ms[i] == ns[i]
      {
        ClipAllAt(Listed(v), i);
        FindClipped(items, i);
      }
      assert ms == ns;
    }
  }

  lemma ListedAreWellFormed(v: Value, i: nat)
    requires WellFormed(v) && i < |Listed(v)|
    ensures WellFormed(Listed(v)[i].value) && (Listed(v)[i].key.Name? <==> v.payload.Object?)
  {
    if v.payload.Array? {
      SlotsAreWellFormed(v, i);
    } else {
      assert WellFormedMember(v.payload.items[i]);
    }
  }

  /** A text without lines for children says what the value says. */
  lemma FlatIsLayout(v: Value, fmt: DoubleWriter)
    requires WellFormed(v) && Flat(v)
    ensures IsLayout(FlatText(v, fmt), Tokens(Clip(v), fmt))
  {
    hide IsLayout, Listed, AllSpace, RenderAll;
    SpaceIsLayout([]);
    match v.payload {
      case Null => LexemeIsLayout(NullWord);
      case Int(i) => LexemeIsLayout(Number(i));
      case UInt(u) => LexemeIsLayout(Number(u));
      case Real(d) => LexemeIsLayout(RealText(d, fmt(d)));
      case NullStr =>
      case Str(s) => LexemeIsLayout(Quoted(s));
      case Bool(b) => LexemeIsLayout(if b then TrueWord else FalseWord);
      case Array(_) => EmptyIsLayout(v, fmt);
      case Object(_) => EmptyIsLayout(v, fmt);
    }
  }

  lemma EmptyIsLayout(v: Value, fmt: DoubleWriter)
    requires WellFormed(v) && IsContainer(v.payload) && Listed(v) == []
    ensures IsLayout(FlatText(v, fmt), Tokens(Clip(v), fmt))
  {
    hide IsLayout, Listed;
    ListedClipped(v);
    assert ListTokens([], fmt) == [];
    LexemeIsLayout(Punct(Open(v)));
    ThenLexeme([Open(v)], [Punct(Open(v))], Punct(Close(v)));
    assert FlatText(v, fmt) == [Open(v)] + [Close(v)];
    assert Tokens(Clip(v), fmt) == [Punct(Open(v))] + [Punct(Close(v))];
  }

  lemma LabelIsLayout(text: string, ls: seq<Lexeme>, key: Key)
    requires IsLayout(text, ls)
    ensures IsLayout(text + PrettyLabel(key), ls + Label(ClipKey(key)))
  {
    hide IsLayout, Quote, CStr;
    if key.Name? {
      var name := Quoted(CStr(key.s));
      ThenLexeme(text, ls, name);
      ThenSpace(text + Render(name), ls + [name], " ");
      ThenLexeme(text + Render(name) + " ", ls + [name], Punct(':'));
      ThenSpace(text + Render(name) + " " + ":", ls + [name] + [Punct(':')], " ");
      assert text + Render(name) + " " + ":" + " " == text + PrettyLabel(key);
      assert ls + [name] + [Punct(':')] == ls + Label(ClipKey(key));
    } else {
      assert text + [] == text && ls + [] == ls;
    }
  }

  function ClipKey(key: Key): Key {
    if key.Name? then Name(CStr(key.s)) else key
  }

  /** A comma where one is needed. */
  lemma CommaIsLayout(text: string, ls: seq<Lexeme>, n: nat)
    requires IsLayout(text, ls)
    ensures IsLayout(text + (if n > 0 then [','] else []), ls + (if n > 0 then [Punct(',')] else []))
  {
    hide IsLayout;
    if n > 0 {
      ThenLexeme(text, ls, Punct(','));
    } else {
      assert text + [] == text && ls + [] == ls;
    }
  }

  lemma {:induction false} JoinedIsLayout(ms: seq<Member>, fmt: DoubleWriter, n: nat)
    requires n <= |ms| && forall i :: 0 <= i < |ms| ==> WellFormed(ms[i].value) && Flat(ms[i].value) && ms[i].key.Index?
    ensures IsLayout(Joined(ms, fmt, n), ListTokens(ClipAll(ms)[..n], fmt))
    decreases n
  {
    hide IsLayout, FlatText, ListTokens, Tokens, WellFormed, Flat, Clip;
    if n == 0 {
      NoMembersYet(ClipAll(ms), fmt);
      SpaceIsLayout([]);
    } else {
      var text, ls, last := Joined(ms, fmt, n - 1), ListTokens(ClipAll(ms)[..n - 1], fmt), ms[n - 1];
      var comma, punct := if n > 1 then [','] else [], if n > 1 then [Punct(',')] else [];
      JoinedIsLayout(ms, fmt, n - 1);
      CommaIsLayout(text, ls, n - 1);
      ThenSpace(text + comma, ls + punct, if n > 1 then " " else []);
      FlatIsLayout(last.value, fmt);
      ClipAllAt(ms, n - 1);
      ListTokensGrow(ClipAll(ms), n - 1, fmt);
      LayoutAppend(text + comma + (if n > 1 then " " else []), ls + punct, FlatText(last.value, fmt), Tokens(Clip(last.value), fmt));
      assert text + comma + (if n > 1 then " " else []) == text + (if n > 1 then ", " else []);
      assert ls + punct + Label(last.key) == ls + punct;
    }
  }

  lemma {:induction false} ItemsAreLayout(ms: seq<Member>, fmt: DoubleWriter, indent: string, n: nat)
    requires n <= |ms| && AllSpace(indent) && forall i :: 0 <= i < |ms| ==> WellFormed(ms[i].value)
    ensures IsLayout(PrettyItems(ms, fmt, indent, n), ListTokens(ClipAll(ms)[..n], fmt))
    decreases DepthOfAll(ms), n + 1
  {
    hide IsLayout, Pretty, ListTokens, Tokens, WellFormed, Clip, PrettyLabel, Label, AllSpace;
    if n == 0 {
      NoMembersYet(ClipAll(ms), fmt);
      LayoutOfNothing();
    } else {
      var text, ls, last := PrettyItems(ms, fmt, indent, n - 1), ListTokens(ClipAll(ms)[..n - 1], fmt), ms[n - 1];
      var comma, punct, line := if n > 1 then [','] else [], if n > 1 then [Punct(',')] else [], ['\n'] + indent;
      DepthOfElement(ms, n - 1);
      ItemsAreLayout(ms, fmt, indent, n - 1);
      CommaIsLayout(text, ls, n - 1);
      BreakIsSpace([], indent);
      ThenSpace(text + comma, ls + punct, line);
      LabelIsLayout(text + comma + line, ls + punct, last.key);
      PrettyIsLayout(last.value, fmt, indent);
      ClipAllAt(ms, n - 1);
      ListTokensGrow(ClipAll(ms), n - 1, fmt);
      LayoutAppend(text + comma + line + PrettyLabel(last.key), ls + punct + Label(ClipKey(last.key)),
        Pretty(last.value, fmt, indent), Tokens(Clip(last.value), fmt));
    }
  }

  lemma LayoutOfNothing()
    ensures IsLayout([], [])
  {
    assert AllSpace([]);
    SpaceIsLayout([]);
  }

  /** Brackets around what a list says make what the container says. */
  lemma Bracketed(v: Value, fmt: DoubleWriter, before: string, inner: string, after: string)
    requires WellFormed(v) && IsContainer(v.payload) && AllSpace(before) && AllSpace(after)
    requires IsLayout(inner, ListTokens(ClipAll(Listed(v))[..|Listed(v)|], fmt))
    ensures IsLayout([Open(v)] + before + inner + after + [Close(v)], Tokens(Clip(v), fmt))
  {
    hide IsLayout, Listed, AllSpace;
    ListedClipped(v);
    var open, ls := [Punct(Open(v))], ListTokens(ClipAll(Listed(v)), fmt);
    assert ClipAll(Listed(v))[..|Listed(v)|] == ClipAll(Listed(v));
    LexemeIsLayout(Punct(Open(v)));
    ThenSpace([Open(v)], open, before);
    LayoutAppend([Open(v)] + before, open, inner, ls);
    ThenSpace([Open(v)] + before + inner, open + ls, after);
    ThenLexeme([Open(v)] + before + inner + after, open + ls, Punct(Close(v)));
  }

  /** The styled text is a layout of what the value says, wherever it is indented to. */
  lemma {:induction false} PrettyIsLayout(v: Value, fmt: DoubleWriter, indent: string)
    requires WellFormed(v) && AllSpace(indent)
    ensures IsLayout(Pretty(v, fmt, indent), Tokens(Clip(v), fmt))
    decreases Depth(v), 0
  {
    hide IsLayout, FlatText, ListTokens, Tokens, WellFormed, Clip, Listed, AllSpace, Joined, PrettyItems, Break;
    var ms := Listed(v);
    ListedIsShallower(v);
    if Flat(v) {
      FlatIsLayout(v, fmt);
    } else {
      forall i | 0 <= i < |ms|
        ensures WellFormed(ms[i].value) && (ms[i].key.Name? <==> v.payload.Object?)
      {
        ListedAreWellFormed(v, i);
      }
      if OnOneLine(v, fmt) {
        JoinedIsLayout(ms, fmt, |ms|);
        OneSpace();
        Bracketed(v, fmt, " ", Joined(ms, fmt, |ms|), " ");
        assert Line(v, fmt) == [Open(v)] + " " + Joined(ms, fmt, |ms|) + " " + [Close(v)];
      } else {
        var items := PrettyItems(ms, fmt, indent + STEP, |ms|);
        var closing := Break([Open(v)] + items, indent);
        BreakIsSpace([Open(v)] + items, indent);
        ItemsAreLayout(ms, fmt, indent + STEP, |ms|);
        NoSpace();
        Bracketed(v, fmt, [], items, closing);
        assert [Open(v)] + [] + items + closing + [Close(v)] == [Open(v)] + items + closing + [Close(v)];
      }
    }
  }

  lemma OneSpace()
    ensures AllSpace(" ")
  {
  }

  lemma NoSpace()
    ensures AllSpace([])
  {
  }

  /** Parsing the styled text gives what parsing the fast writer's gives, if and only if no
      member name holds a NUL. */
  lemma StyledTextMeansTheSameIff(v: Value, fmt: DoubleWriter, dbl: DoubleReader, root: Value)
    requires WellFormed(v) && RealsSurvive(v, fmt, dbl) && NullStrFree(v) && Depth(v) <= STACK_LIMIT
    ensures var styled, fast := Parse(StyledText(v, fmt), dbl, root), Parse(RenderAll(FastPieces(v, fmt)), dbl, root);
            && styled.Read? && styled.ok && fast.Read? && fast.ok
            && (Erase(styled.value) == Erase(fast.value) <==> NulFree(v))
  {
    hide Tokens, RenderAll, Parse, Pretty, NulFree, RealsSurvive, NullStrFree, Depth, Erase, Spaced;
    StyledTextIsLayout(v, fmt);
    var ps :| StyledText(v, fmt) == RenderAll(ps) && Spaced(ps) && Lexemes(ps) == Tokens(Clip(v), fmt);
    StyledMeansTheSameIff(ps, v, fmt, dbl, root);
  }

  lemma StyledTextIsLayout(v: Value, fmt: DoubleWriter)
    requires WellFormed(v)
    ensures IsLayout(StyledText(v, fmt), Tokens(Clip(v), fmt))
  {
    hide IsLayout, Pretty, Tokens;
    PrettyIsLayout(v, fmt, []);
    ThenSpace(Pretty(v, fmt, []), Tokens(Clip(v), fmt), ['\n']);
  }

  // ----- Brackets on lines of their own -----

  /** The text ends with a visible character. */
  predicate EndsVisibly(text: string) {
    text != [] && text[|text| - 1] != ' ' && text[|text| - 1] != '\n'
  }

  /** Of all values only strings without text and doubles may be written otherwise. */
  predicate WrittenVisibly(v: Value, fmt: DoubleWriter) {
    match v.payload
    case NullStr => false
    case Real(d) => EndsVisibly(fmt(d))
    case _ => true
  }

  lemma DigitsEndVisibly(n: nat)
    ensures EndsVisibly(Digits(n)) && EndsVisibly("-" + Digits(n))
  {
  }

  lemma FlatEndsVisiblyIff(v: Value, fmt: DoubleWriter)
    ensures EndsVisibly(FlatText(v, fmt)) <==> WrittenVisibly(v, fmt)
  {
    match v.payload
    case Int(i) => if i < 0 { DigitsEndVisibly(-i); } else { DigitsEndVisibly(i); }
    case UInt(u) => DigitsEndVisibly(u);
    case _ =>
  }

  lemma EndsVisiblyIff(v: Value, fmt: DoubleWriter, indent: string)
    ensures EndsVisibly(Pretty(v, fmt, indent)) <==> WrittenVisibly(v, fmt)
  {
    hide FlatText, PrettyItems, Joined, Listed, Break;
    FlatEndsVisiblyIff(v, fmt);
  }

  /** The closing bracket of a container that needs lines stands on a line of its own, at the
      container's indentation, if and only if its last child's text ends with a visible
      character; otherwise it follows what precedes it. */
  lemma ClosesOnItsLineIff(v: Value, fmt: DoubleWriter, indent: string)
    requires !Flat(v) && !OnOneLine(v, fmt)
    ensures var body := [Open(v)] + PrettyItems(Listed(v), fmt, indent + STEP, |Listed(v)|);
            (Pretty(v, fmt, indent) == body + (['\n'] + indent + [Close(v)])) == WrittenVisibly(Listed(v)[|Listed(v)| - 1].value, fmt)
  {
    hide Pretty, PrettyItems, WrittenVisibly, OnOneLine, Listed;
    var n := |Listed(v)|;
    var last, items := Listed(v)[n - 1], PrettyItems(Listed(v), fmt, indent + STEP, n);
    var body := [Open(v)] + items;
    Closes(v, fmt, [], indent);
    assert [] + [Open(v)] + items == body && [] + Pretty(v, fmt, indent) == Pretty(v, fmt, indent);
    EndsVisiblyIff(last.value, fmt, indent + STEP);
    LastItem(Listed(v), fmt, indent + STEP);
  }

  /** A list ends as its last member does, or with a space if that has no text. */
  lemma LastItem(ms: seq<Member>, fmt: DoubleWriter, indent: string)
    requires ms != [] && indent != [] && indent[|indent| - 1] == ' '
    ensures var items, last := PrettyItems(ms, fmt, indent, |ms|), Pretty(ms[|ms| - 1].value, fmt, indent);
            items != [] && items[|items| - 1] == if last == [] then ' ' else last[|last| - 1]
  {
    hide Pretty, Quote, CStr;
    var n := |ms|;
    var before, last := PrettyItems(ms, fmt, indent, n - 1) + (if n > 1 then [','] else []), Pretty(ms[n - 1].value, fmt, indent);
    var name := PrettyLabel(ms[n - 1].key);
    assert PrettyItems(ms, fmt, indent, n) == before + (['\n'] + indent) + name + last;
    assert name != [] ==> name[|name| - 1] == ' ';
  }
}
