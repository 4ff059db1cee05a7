/**
 When writing and parsing give a value back: exactly when every string in it has text.
 When a styled text means the same: exactly when no member name holds a NUL.
 */
module JsonFaithful {
  import opened JsonValue
  import opened JsonOrder
  import opened Decimal
  import opened JsonScanner
  import opened JsonStrings
  import opened JsonReading
  import opened JsonText
  import opened JsonRoundTrip
  import opened JsonLayout
  import opened JsonSound

  /** The fast writer's layout: no space at all. */
  function Tight(ls: seq<Lexeme>): seq<Piece> {
    if ls == [] then [] else [Lex(ls[0])] + Tight(ls[1..])
  }

  lemma {:induction false} TightFacts(ls: seq<Lexeme>)
    ensures Spaced(Tight(ls)) && Lexemes(Tight(ls)) == ls
  {
    if ls != [] {
      TightFacts(ls[1..]);
      assert Tight(ls)[1..] == Tight(ls[1..]);
    }
  }

  lemma {:induction false} TightAppend(a: seq<Lexeme>, b: seq<Lexeme>)
    ensures Tight(a + b) == Tight(a) + Tight(b)
  {
    if a == [] {
      assert a + b == b;
    } else {
      TightAppend(a[1..], b);
      assert (a + b)[0] == a[0] && (a + b)[1..] == a[1..] + b;
      Regroup3([Lex(a[0])], Tight(a[1..]), Tight(b));
    }
  }

  /** The fast writer's text: the lexemes and a line feed. */
  function FastPieces(v: Value, fmt: DoubleWriter): seq<Piece> {
    Tight(Tokens(v, fmt)) + [Gap("\n")]
  }

  lemma FastPiecesAreALayout(v: Value, fmt: DoubleWriter)
    ensures Spaced(FastPieces(v, fmt)) && Lexemes(FastPieces(v, fmt)) == Tokens(v, fmt)
  {
    TightFacts(Tokens(v, fmt));
    LexemesAppend(Tight(Tokens(v, fmt)), [Gap("\n")]);
    assert Lexemes([Gap("\n")]) == [];
  }

  lemma WellFormedIsShaped(v: Value)
    requires WellFormed(v)
    ensures Shaped(v)
  {
    if IsContainer(v.payload) {
      forall k | 0 <= k < |v.payload.items|
        ensures ShapedMember(v.payload.items[k])
      {
        assert AllWellFormed(v.payload.items);
        assert WellFormedMember(v.payload.items[k]);
        WellFormedIsShaped(v.payload.items[k].value);
      }
    }
  }

  /** Normal forms keep a missing text. */
  lemma {:induction false} NormalKeepsNullStr(v: Value)
    requires WellFormed(v) && NullStrFree(Normal(v))
    ensures NullStrFree(v)
  {
    if IsContainer(v.payload) {
      NormalKeepsMembers(v);
      var items, ms := v.payload.items, NormalAll(Listed(v));
      assert AllNullStrFree(ms);
      forall k | 0 <= k < |items|
        ensures NullStrFreeMember(items[k])
      {
        var j := WhereListed(v, k);
        NormalAllAt(Listed(v), j);
        assert NullStrFreeMember(ms[j]);
        assert AllWellFormed(items) && WellFormedMember(items[k]);
        NormalKeepsNullStr(items[k].value);
      }
    }
  }

  /** Where a member of a container is listed. */
  lemma WhereListed(v: Value, k: nat) returns (j: nat)
    requires WellFormed(v) && IsContainer(v.payload) && k < |v.payload.items|
    ensures j < |Listed(v)| && Listed(v)[j] == v.payload.items[k]
  {
    var items := v.payload.items;
    if v.payload.Object? {
      j := k;
    } else {
      j := items[k].key.i;
      FindSorted(items, k);
      assert k < |items| - 1 ==> KeyLess(items[k].key, items[|items| - 1].key);
    }
  }

  lemma {:induction false} NormalAllAt(ms: seq<Member>, j: nat)
    requires j < |ms|
    ensures NormalAll(ms)[j] == Member(ms[j].key, Normal(ms[j].value))
    decreases |ms|
  {
    hide Normal;
    if j > 0 {
      NormalAllAt(ms[1..], j - 1);
    }
  }

  lemma {:induction false} EraseKeepsNullStr(v: Value)
    requires NullStrFree(v)
    ensures NullStrFree(Erase(v))
  {
    if IsContainer(v.payload) {
      var items := v.payload.items;
      assert AllNullStrFree(items);
      forall k | 0 <= k < |items|
        ensures NullStrFreeMember(EraseAll(items)[k])
      {
        EraseAllAt(items, k);
        assert NullStrFreeMember(items[k]);
        EraseKeepsNullStr(items[k].value);
      }
    }
  }

  lemma {:induction false} EraseAllAt(items: seq<Member>, k: nat)
    requires k < |items|
    ensures EraseAll(items)[k] == EraseMember(items[k])
    decreases |items|
  {
    hide EraseMember;
    if k > 0 {
      EraseAllAt(items[1..], k - 1);
    }
  }

  /** Parsing what the fast writer wrote gives the value's normal form back, up to byte
      ranges, if and only if no string in it lacks its text. */
  lemma RoundTripIff(v: Value, fmt: DoubleWriter, dbl: DoubleReader, root: Value)
    requires WellFormed(v) && RealsSurvive(v, fmt, dbl) && Depth(v) <= STACK_LIMIT && Sound(root)
    ensures var r := Parse(RenderAll(FastPieces(v, fmt)), dbl, root);
            r.Read? && r.ok && Erase(r.value) == Normal(v) <==> NullStrFree(v)
  {
    hide Tokens, RenderAll;
    var doc := RenderAll(FastPieces(v, fmt));
    if NullStrFree(v) {
      WellFormedIsShaped(v);
      FastPiecesAreALayout(v, fmt);
      LayoutParses(FastPieces(v, fmt), v, fmt, dbl, root);
    } else {
      ReadIsSound(doc, dbl, 0, 0, root);
      var r := Parse(doc, dbl, root);
      if r.Read? && r.ok && Erase(r.value) == Normal(v) {
        EraseKeepsNullStr(r.value);
        NormalKeepsNullStr(v);
      }
    }
  }

  /** A value nested too deeply is written, but its text makes the reader throw. */
  lemma TooDeepThrows(v: Value, fmt: DoubleWriter, dbl: DoubleReader, root: Value)
    requires WellFormed(v) && RealsSurvive(v, fmt, dbl) && NullStrFree(v)
    ensures Parse(RenderAll(FastPieces(v, fmt)), dbl, root).Thrown? <==> Depth(v) > STACK_LIMIT
  {
    hide Tokens, RenderAll;
    WellFormedIsShaped(v);
    FastPiecesAreALayout(v, fmt);
    LayoutParses(FastPieces(v, fmt), v, fmt, dbl, root);
  }

  // ----- Names with a NUL -----

  predicate NulFree(v: Value) {
    IsContainer(v.payload) ==> AllNulFree(v.payload.items)
  }

  predicate AllNulFree(items: seq<Member>) {
    forall k :: 0 <= k < |items| ==> NulFreeMember(items[k])
  }

  predicate NulFreeMember(m: Member) {
    (m.key.Name? ==> '\0' !in m.key.s) && NulFree(m.value)
  }

  /** The value with every member name cut at its first NUL, as the styled writer
      writes it; names may then repeat. */
  function Clip(v: Value): Value {
    match v.payload
    case Array(items) => v.(payload := Array(ClipAll(items)))
    case Object(items) => v.(payload := Object(ClipAll(items)))
    case _ => v
  }

  function ClipAll(items: seq<Member>): (r: seq<Member>)
    ensures |r| == |items|
  {
    if items == [] then [] else [ClipMember(items[0])] + ClipAll(items[1..])
  }

  function ClipMember(m: Member): Member {
    Member(if m.key.Name? then Name(CStr(m.key.s)) else m.key, Clip(m.value))
  }

  lemma {:induction false} ClipAllAt(items: seq<Member>, k: nat)
    requires k < |items|
    ensures ClipAll(items)[k] == ClipMember(items[k])
    decreases |items|
  {
    hide ClipMember;
    if k > 0 {
      ClipAllAt(items[1..], k - 1);
    }
  }

  /** Clipping changes nothing but names: what is written of arrays, depths and sorts of
      value stays. */
  lemma {:induction false} ClipKeeps(v: Value, fmt: DoubleWriter, dbl: DoubleReader)
    requires Writable(v, fmt, dbl)
    ensures Writable(Clip(v), fmt, dbl) && Depth(Clip(v)) == Depth(v)
  {
    if IsContainer(v.payload) {
      var items := v.payload.items;
      assert AllRealsSurvive(items, fmt, dbl) && AllNullStrFree(items) && AllShaped(items);
      forall k | 0 <= k < |items|
        ensures Writable(ClipAll(items)[k].value, fmt, dbl) && Depth(ClipAll(items)[k].value) == Depth(items[k].value)
        ensures RealsSurviveIn(ClipAll(items)[k], fmt, dbl) && NullStrFreeMember(ClipAll(items)[k]) && ShapedMember(ClipAll(items)[k])
        ensures ClipAll(items)[k].key.Name? == items[k].key.Name?
        ensures items[k].key.Index? ==> ClipAll(items)[k].key == items[k].key
      {
        ClipAllAt(items, k);
        assert RealsSurviveIn(items[k], fmt, dbl) && NullStrFreeMember(items[k]) && ShapedMember(items[k]);
        ClipKeeps(items[k].value, fmt, dbl);
      }
      SameDepths(items, ClipAll(items));
    }
  }

  lemma {:induction false} SameDepths(xs: seq<Member>, ys: seq<Member>)
    requires |xs| == |ys| && forall k :: 0 <= k < |xs| ==> Depth(ys[k].value) == Depth(xs[k].value)
    ensures DepthOfAll(ys) == DepthOfAll(xs)
  {
    if xs != [] {
      SameDepths(xs[1..], ys[1..]);
    }
  }

  /** Names without a NUL are not cut. */
  lemma {:induction false} ClipOfNulFree(v: Value)
    requires NulFree(v)
    ensures Clip(v) == v
  {
    if IsContainer(v.payload) {
      var items := v.payload.items;
      forall k | 0 <= k < |items|
        ensures ClipAll(items)[k] == items[k]
      {
        ClipAllAt(items, k);
        assert NulFreeMember(items[k]);
        ClipOfNulFree(items[k].value);
        if items[k].key.Name? {
          CStrFacts(items[k].key.s);
        }
      }
      assert ClipAll(items) == items;
    }
  }

  lemma {:induction false} PutKeepsNulFree(items: seq<Member>, m: Member)
    requires AllNulFree(items) && NulFreeMember(m)
    ensures AllNulFree(Put(items, m.key, m.value))
  {
    hide NulFreeMember;
    if items != [] && !KeyLess(m.key, items[0].key) && items[0].key != m.key {
      PutKeepsNulFree(items[1..], m);
    }
    assert Member(m.key, m.value) == m;
  }

  lemma {:induction false} PutAllKeepsNulFree(items: seq<Member>, more: seq<Member>)
    requires AllNulFree(items) && AllNulFree(more)
    ensures AllNulFree(PutAll(items, more))
    decreases |more|
  {
    hide NulFreeMember;
    if more != [] {
      PutKeepsNulFree(items, more[0]);
      PutAllKeepsNulFree(Put(items, more[0].key, more[0].value), more[1..]);
    }
  }

  /** No name of a clipped value's normal form holds a NUL. */
  lemma {:induction false} ClippedIsNulFree(v: Value)
    ensures NulFree(Normal(Clip(v)))
    decreases v
  {
    if IsContainer(v.payload) {
      var items, ms := v.payload.items, Listed(Clip(v));
      forall k | 0 <= k < |items|
        ensures NulFree(Normal(ClipAll(items)[k].value))
        ensures ClipAll(items)[k].key.Name? ==> '\0' !in ClipAll(items)[k].key.s
      {
        ClipAllAt(items, k);
        ClippedIsNulFree(items[k].value);
        if items[k].key.Name? {
          CStrFacts(items[k].key.s);
        }
      }
      forall j | 0 <= j < |ms|
        ensures NulFreeMember(NormalAll(ms)[j])
      {
        NormalAllAt(ms, j);
        if v.payload.Object? {
          assert ms[j] == ClipAll(items)[j];
        } else if Find(ClipAll(items), Index(j)).Some? {
          FoundIsElement(ClipAll(items), Index(j));
          var k :| 0 <= k < |items| && ClipAll(items)[k] == Member(Index(j), ms[j].value);
        }
      }
      PutAllKeepsNulFree([], NormalAll(ms));
    }
  }

  /** Normal forms keep their names. */
  lemma {:induction false} NormalKeepsNul(v: Value)
    requires WellFormed(v) && NulFree(Normal(v))
    ensures NulFree(v)
  {
    if IsContainer(v.payload) {
      NormalKeepsMembers(v);
      var items, ms := v.payload.items, NormalAll(Listed(v));
      assert AllNulFree(ms);
      forall k | 0 <= k < |items|
        ensures NulFreeMember(items[k])
      {
        var j := WhereListed(v, k);
        NormalAllAt(Listed(v), j);
        assert NulFreeMember(ms[j]);
        assert AllWellFormed(items) && WellFormedMember(items[k]);
        NormalKeepsNul(items[k].value);
      }
    }
  }

  /** A styled layout, whose names are cut at their first NUL, always parses; it means
      what the fast writer's text means if and only if no name has a NUL. */
  lemma StyledMeansTheSameIff(ps: seq<Piece>, v: Value, fmt: DoubleWriter, dbl: DoubleReader, root: Value)
    requires WellFormed(v) && RealsSurvive(v, fmt, dbl) && NullStrFree(v) && Depth(v) <= STACK_LIMIT
    requires Spaced(ps) && Lexemes(ps) == Tokens(Clip(v), fmt)
    ensures var styled, fast := Parse(RenderAll(ps), dbl, root), Parse(RenderAll(FastPieces(v, fmt)), dbl, root);
            && styled.Read? && styled.ok && fast.Read? && fast.ok
            && (Erase(styled.value) == Erase(fast.value) <==> NulFree(v))
  {
    hide Tokens, RenderAll, Normal, Parse;
    WellFormedIsShaped(v);
    ClipKeeps(v, fmt, dbl);
    FastPiecesAreALayout(v, fmt);
    LayoutParses(FastPieces(v, fmt), v, fmt, dbl, root);
    LayoutParses(ps, Clip(v), fmt, dbl, root);
    ClippedIsNulFree(v);
    if NulFree(v) {
      ClipOfNulFree(v);
    } else if Normal(Clip(v)) == Normal(v) {
      NormalKeepsNul(v);
    }
  }

  /** A string value without text is lost on the way. */
  lemma MissingTextIsLost(fmt: DoubleWriter, dbl: DoubleReader)
    ensures var v := Value(NullStr, 0, 0);
            var r := Parse(RenderAll(FastPieces(v, fmt)), dbl, NULL_VALUE);
            !(r.Read? && r.ok && Erase(r.value) == Normal(v))
  {
    RoundTripIff(Value(NullStr, 0, 0), fmt, dbl, NULL_VALUE);
  }

  /** An object with the member name NUL: its styled text names it with nothing. */
  const NUL_NAMED := Value(Object([Member(Name("\0"), NULL_VALUE)]), 0, 0)

  lemma NulNameIsLost(ps: seq<Piece>, fmt: DoubleWriter, dbl: DoubleReader)
    requires Spaced(ps) && Lexemes(ps) == Tokens(Clip(NUL_NAMED), fmt)
    ensures var styled, fast := Parse(RenderAll(ps), dbl, NULL_VALUE), Parse(RenderAll(FastPieces(NUL_NAMED, fmt)), dbl, NULL_VALUE);
            styled.Read? && fast.Read? && Erase(styled.value) != Erase(fast.value)
  {
    var items := NUL_NAMED.payload.items;
    assert WellFormedMember(items[0]) && RealsSurviveIn(items[0], fmt, dbl) && NullStrFreeMember(items[0]);
    assert !NulFreeMember(items[0]);
    DepthIsBounded(items, 1);
    hide Parse, RenderAll, Tokens, FastPieces;
    StyledMeansTheSameIff(ps, NUL_NAMED, fmt, dbl, NULL_VALUE);
  }
}
