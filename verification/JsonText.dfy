/**
 The text of a value as a list of lexemes, free of layout: what any of its layouts
 reads back as.
 */
module JsonText {
  import opened JsonValue
  import opened JsonOrder
  import opened Decimal
  import opened JsonScanner
  import opened JsonStrings
  import opened JsonReading

  datatype Lexeme =
    | Punct(c: char)
    | NullWord | TrueWord | FalseWord
    | Number(i: int)
    | RealText(d: Double, text: string)
    | Quoted(s: string)

  /** How the C++ library prints a double. */
  type DoubleWriter = Double -> string

  function Render(l: Lexeme): string {
    match l
    case Punct(c) => [c]
    case NullWord => "null"
    case TrueWord => "true"
    case FalseWord => "false"
    case RealText(_, text) => text
    case Number(i) => IntText(i)
    case Quoted(s) => Quote(s)
  }

  // ----- The lexemes of a value -----

  function Max(a: nat, b: nat): nat {
    if a < b then b else a
  }

  function Depth(v: Value): (d: nat)
    ensures d > 0
  {
    if IsContainer(v.payload) then 1 + DepthOfAll(v.payload.items) else 1
  }

  function DepthOfAll(items: seq<Member>): nat {
    if items == [] then 0 else Max(DepthOf(items[0]), DepthOfAll(items[1..]))
  }

  function DepthOf(m: Member): nat {
    Depth(m.value)
  }

  /** The members as they are written: every slot of an array, every member of an
      object. */
  function Listed(v: Value): seq<Member> {
    match v.payload
    case Array(items) =>
      var n := if items == [] || items[|items| - 1].key.Name? then 0 else items[|items| - 1].key.i + 1;
      seq(n, (i: nat) => Member(Index(i), Slot(v, i)))
    case _ => Items(v)
  }

  lemma {:induction false} DepthOfElement(items: seq<Member>, k: nat)
    requires k < |items|
    ensures Depth(items[k].value) <= DepthOfAll(items)
  {
    if k > 0 {
      DepthOfElement(items[1..], k - 1);
    }
  }

  lemma {:induction false} FoundIsElement(items: seq<Member>, key: Key)
    requires Find(items, key).Some?
    ensures exists k :: 0 <= k < |items| && items[k] == Member(key, Find(items, key).value)
  {
    if items[0].key == key {
      assert items[0] == Member(key, Find(items, key).value);
    } else {
      FoundIsElement(items[1..], key);
      var k :| 0 <= k < |items[1..]| && items[1..][k] == Member(key, Find(items[1..], key).value);
      assert items[k + 1] == Member(key, Find(items, key).value);
    }
  }

  lemma {:induction false} DepthIsBounded(items: seq<Member>, d: nat)
    requires forall k :: 0 <= k < |items| ==> Depth(items[k].value) <= d
    ensures DepthOfAll(items) <= d
  {
    if items != [] {
      DepthIsBounded(items[1..], d);
    }
  }

  lemma ListedIsShallower(v: Value)
    ensures IsContainer(v.payload) ==> DepthOfAll(Listed(v)) <= DepthOfAll(v.payload.items) < Depth(v)
  {
    if v.payload.Array? {
      var items, ms := v.payload.items, Listed(v);
      forall i | 0 <= i < |ms|
        ensures Depth(ms[i].value) <= DepthOfAll(items)
      {
        if Find(items, Index(i)).Some? {
          FoundIsElement(items, Index(i));
          var k :| 0 <= k < |items| && items[k] == Member(Index(i), Find(items, Index(i)).value);
          DepthOfElement(items, k);
        } else {
          DepthOfElement(items, |items| - 1);
        }
      }
      DepthIsBounded(ms, DepthOfAll(items));
    }
  }

  /** What both writers write, whatever space they put between. */
  function Tokens(v: Value, fmt: DoubleWriter): seq<Lexeme>
    decreases Depth(v), 0
  {
    ListedIsShallower(v);
    match v.payload
    case Null => [NullWord]
    case Int(i) => [Number(i)]
    case UInt(u) => [Number(u)]
    case Real(d) => [RealText(d, fmt(d))]
    case NullStr => []
    case Str(s) => [Quoted(s)]
    case Bool(b) => [if b then TrueWord else FalseWord]
    case Array(_) => [Punct('[')] + ListTokens(Listed(v), fmt) + [Punct(']')]
    case Object(_) => [Punct('{')] + ListTokens(Listed(v), fmt) + [Punct('}')]
  }

  function ListTokens(ms: seq<Member>, fmt: DoubleWriter): seq<Lexeme>
    decreases DepthOfAll(ms), |ms| + 1
  {
    if ms == [] then []
    else
      DepthOfElement(ms, 0);
      Label(ms[0].key) + Tokens(ms[0].value, fmt) + (if |ms| == 1 then [] else [Punct(',')] + ListTokens(ms[1..], fmt))
  }

  /** What comes before a member's value. */
  function Label(key: Key): seq<Lexeme> {
    if key.Name? then [Quoted(key.s), Punct(':')] else []
  }

  // ----- What a value reads back as -----

  function PutAll(items: seq<Member>, more: seq<Member>): seq<Member>
    decreases |more|
  {
    if more == [] then items else PutAll(Put(items, more[0].key, more[0].value), more[1..])
  }

  /** The stored form: non-negative integers signed while they fit an `int`, every slot
      of an array present, one member to a name, the last one written. */
  function Normal(v: Value): Value
    decreases Depth(v), 0
  {
    ListedIsShallower(v);
    match v.payload
    case Int(i) => Value(if i <= MAX_INT then Int(i) else UInt(i), 0, 0)
    case UInt(u) => Value(if u <= MAX_INT then Int(u) else UInt(u), 0, 0)
    case Array(_) => Value(Array(PutAll([], NormalAll(Listed(v)))), 0, 0)
    case Object(_) => Value(Object(PutAll([], NormalAll(Listed(v)))), 0, 0)
    case p => Value(p, 0, 0)
  }

  function NormalAll(ms: seq<Member>): (r: seq<Member>)
    ensures |r| == |ms| && forall k :: 0 <= k < |ms| ==> r[k].key == ms[k].key
    decreases DepthOfAll(ms), |ms| + 1
  {
    if ms == [] then []
    else
      DepthOfElement(ms, 0);
      [Member(ms[0].key, Normal(ms[0].value))] + NormalAll(ms[1..])
  }

  lemma {:induction false} PutAtEnd(items: seq<Member>, key: Key, v: Value)
    requires forall k :: 0 <= k < |items| ==> KeyLess(items[k].key, key)
    ensures Put(items, key, v) == items + [Member(key, v)]
  {
    if items != [] {
      KeyTrichotomy(items[0].key, key);
      PutAtEnd(items[1..], key, v);
    }
  }

  /** Setting sorted members one after the other appends them. */
  lemma {:induction false} PutAllSorted(items: seq<Member>, more: seq<Member>)
    requires Sorted(items + more)
    ensures PutAll(items, more) == items + more
    decreases |more|
  {
    if more != [] {
      forall k | 0 <= k < |items|
        ensures KeyLess(items[k].key, more[0].key)
      {
        assert (items + more)[k] == items[k] && (items + more)[|items|] == more[0];
      }
      PutAtEnd(items, more[0].key, more[0].value);
      assert items + [more[0]] + more[1..] == items + more;
      PutAllSorted(items + [more[0]], more[1..]);
    } else {
      assert items + more == items;
    }
  }

  lemma ListedIsSorted(v: Value)
    requires WellFormed(v)
    ensures Sorted(Listed(v))
  {
    hide Slot, AllWellFormed;
  }

  lemma NormalAllIsSorted(ms: seq<Member>)
    requires Sorted(ms)
    ensures Sorted(NormalAll(ms))
  {
    hide Normal, KeyLess;
    var ns := NormalAll(ms);
    forall i, j | 0 <= i < j < |ns|
      ensures KeyLess(ns[i].key, ns[j].key)
    {
      assert KeyLess(ms[i].key, ms[j].key);
    }
  }

  /** A well-formed value keeps its members: slots in order, names in order. */
  lemma NormalKeepsMembers(v: Value)
    requires WellFormed(v)
    ensures v.payload.Array? ==> Normal(v).payload == Array(NormalAll(Listed(v)))
    ensures v.payload.Object? ==> Normal(v).payload == Object(NormalAll(Listed(v)))
  {
    ListedIsSorted(v);
    NormalAllIsSorted(Listed(v));
    assert [] + NormalAll(Listed(v)) == NormalAll(Listed(v));
    PutAllSorted([], NormalAll(Listed(v)));
  }
}
