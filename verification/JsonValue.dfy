/**
 JSON values as the library keeps them: arrays and objects are maps sorted by key,
 and every value remembers the byte range it was read from.
 */
module JsonValue {
  import opened Wrappers

  /** A floating point number, its rounding aside. */
  datatype Double = NaN | Finite(r: real) | PosInf | NegInf

  /** A map key: an array index or a member name. */
  datatype Key = Index(i: nat) | Name(s: string)

  datatype Member = Member(key: Key, value: Value)

  /** A string value built from its type alone holds no text at all: `NullStr`. */
  datatype Payload =
    | Null
    | Int(i: int)
    | UInt(u: nat)
    | Real(d: Double)
    | NullStr
    | Str(s: string)
    | Bool(b: bool)
    | Array(items: seq<Member>)
    | Object(items: seq<Member>)

  datatype Value = Value(payload: Payload, start: nat, limit: nat)

  const NULL_VALUE := Value(Null, 0, 0)

  const MIN_INT64: int := -0x8000_0000_0000_0000
  const MAX_INT64: int := 0x7FFF_FFFF_FFFF_FFFF
  const MAX_UINT64: int := 0xFFFF_FFFF_FFFF_FFFF
  const MAX_INT: int := 0x7FFF_FFFF

  predicate IsContainer(p: Payload) {
    p.Array? || p.Object?
  }

  /** The members of an array or object; scalars have none. */
  function Items(v: Value): seq<Member> {
    if IsContainer(v.payload) then v.payload.items else []
  }

  /** The number of values in a value, itself included. */
  function Size(v: Value): (n: nat)
    ensures n > 0
  {
    if IsContainer(v.payload) then 1 + SizeOfAll(v.payload.items) else 1
  }

  function SizeOfAll(items: seq<Member>): nat {
    if items == [] then 0 else SizeOf(items[0]) + SizeOfAll(items[1..])
  }

  function SizeOf(m: Member): nat {
    Size(m.value)
  }

  // ----- Keys and their maps -----

  predicate StringLess(a: string, b: string) {
    b != [] && (a == [] || a[0] < b[0] || (a[0] == b[0] && StringLess(a[1..], b[1..])))
  }

  predicate KeyLess(a: Key, b: Key) {
    match a
    case Index(i) => b.Index? && i < b.i
    case Name(s) => b.Name? && StringLess(s, b.s)
  }

  /** Byte by byte: a proper prefix comes first, otherwise the smaller byte decides where
      two strings first differ. */
  ghost predicate StringBefore(a: string, b: string) {
    exists k :: 0 <= k <= |a| && k <= |b| && DiffersAt(a, b, k)
  }

  predicate DiffersAt(a: string, b: string, k: nat)
    requires k <= |a| && k <= |b|
  {
    a[..k] == b[..k] && k < |b| && (k == |a| || a[k] < b[k])
  }

  lemma {:induction false} StringLessIff(a: string, b: string)
    ensures StringLess(a, b) <==> StringBefore(a, b)
  {
    if a == [] || b == [] || a[0] != b[0] {
      assert DiffersAt(a, b, 0) <==> StringLess(a, b);
      assert forall k :: 0 < k <= |a| && k <= |b| ==> a[..k][0] == a[0] && b[..k][0] == b[0];
    } else {
      StringLessIff(a[1..], b[1..]);
      if k :| 0 <= k <= |a| && k <= |b| && DiffersAt(a, b, k) {
        assert a[1..][..k - 1] == a[..k][1..] && b[1..][..k - 1] == b[..k][1..];
        assert DiffersAt(a[1..], b[1..], k - 1);
      }
      if k :| 0 <= k <= |a[1..]| && k <= |b[1..]| && DiffersAt(a[1..], b[1..], k) {
        assert a[..k + 1] == [a[0]] + a[1..][..k] && b[..k + 1] == [b[0]] + b[1..][..k];
        assert DiffersAt(a, b, k + 1);
      }
    }
  }

  /** The order of the map's keys: indices by number, names byte by byte. */
  lemma KeyLessMeans(a: Key, b: Key)
    requires SameKind(a, b)
    ensures KeyLess(a, b) <==> if a.Index? then a.i < b.i else StringBefore(a.s, b.s)
  {
    if a.Name? {
      StringLessIff(a.s, b.s);
    }
  }

  predicate SameKind(a: Key, b: Key) {
    a.Index? == b.Index?
  }

  predicate Sorted(items: seq<Member>) {
    forall i, j :: 0 <= i < j < |items| ==> KeyLess(items[i].key, items[j].key)
  }

  /** Integers fit their width; array keys are indices, object keys names, both in
      strictly increasing order. */
  predicate WellFormed(v: Value) {
    match v.payload
    case Int(i) => MIN_INT64 <= i <= MAX_INT64
    case UInt(u) => u <= MAX_UINT64
    case Array(items) => Sorted(items) && (forall k :: 0 <= k < |items| ==> items[k].key.Index?) && AllWellFormed(items)
    case Object(items) => Sorted(items) && (forall k :: 0 <= k < |items| ==> items[k].key.Name?) && AllWellFormed(items)
    case _ => true
  }

  predicate AllWellFormed(items: seq<Member>) {
    forall k :: 0 <= k < |items| ==> WellFormedMember(items[k])
  }

  predicate WellFormedMember(m: Member) {
    WellFormed(m.value)
  }

  lemma {:induction false} StringTrichotomy(a: string, b: string)
    ensures !(StringLess(a, b) && StringLess(b, a))
    ensures a == b <==> !StringLess(a, b) && !StringLess(b, a)
  {
    if a != [] && b != [] && a[0] == b[0] {
      StringTrichotomy(a[1..], b[1..]);
      assert a == [a[0]] + a[1..] && b == [b[0]] + b[1..];
    }
  }

  lemma {:induction false} StringLessTransitive(a: string, b: string, c: string)
    requires StringLess(a, b) && StringLess(b, c)
    ensures StringLess(a, c)
  {
    if a != [] && a[0] == b[0] && b[0] == c[0] {
      StringLessTransitive(a[1..], b[1..], c[1..]);
    }
  }

  lemma KeyTrichotomy(a: Key, b: Key)
    requires SameKind(a, b)
    ensures !(KeyLess(a, b) && KeyLess(b, a))
    ensures a == b <==> !KeyLess(a, b) && !KeyLess(b, a)
  {
    if a.Name? {
      StringTrichotomy(a.s, b.s);
    }
  }

  lemma KeyLessTransitive(a: Key, b: Key, c: Key)
    requires KeyLess(a, b) && KeyLess(b, c)
    ensures KeyLess(a, c)
  {
    if a.Name? {
      StringLessTransitive(a.s, b.s, c.s);
    }
  }

  // ----- Element access -----

  /** The value under a key, if there is one. */
  function Find(items: seq<Member>, key: Key): Option<Value> {
    if items == [] then None
    else if items[0].key == key then Some(items[0].value)
    else Find(items[1..], key)
  }

  /** Sets the value under a key, inserting it in its place when it is new. */
  function Put(items: seq<Member>, key: Key, v: Value): seq<Member> {
    if items == [] || KeyLess(key, items[0].key) then [Member(key, v)] + items
    else if items[0].key == key then [Member(key, v)] + items[1..]
    else [items[0]] + Put(items[1..], key, v)
  }

  predicate AllOfKind(items: seq<Member>, key: Key) {
    forall k :: 0 <= k < |items| ==> SameKind(items[k].key, key)
  }

  lemma TailIsSorted(items: seq<Member>)
    requires Sorted(items) && items != []
    ensures Sorted(items[1..]) && forall k :: 0 <= k < |items[1..]| ==> KeyLess(items[0].key, items[1..][k].key)
  {
  }

  /** Setting a key keeps the map sorted. */
  lemma {:induction false} PutKeepsSorted(items: seq<Member>, key: Key, v: Value)
    requires Sorted(items) && AllOfKind(items, key)
    ensures Sorted(Put(items, key, v)) && AllOfKind(Put(items, key, v), key)
    ensures forall m :: m in Put(items, key, v) ==> m == Member(key, v) || m in items
  {
    var r := Put(items, key, v);
    if items == [] {
    } else if KeyLess(key, items[0].key) {
      forall j | 0 < j < |items|
        ensures KeyLess(key, items[j].key)
      {
        KeyLessTransitive(key, items[0].key, items[j].key);
      }
    } else if items[0].key == key {
    } else {
      TailIsSorted(items);
      PutKeepsSorted(items[1..], key, v);
      KeyTrichotomy(key, items[0].key);
      var tail := Put(items[1..], key, v);
      forall j | 0 <= j < |tail|
        ensures KeyLess(items[0].key, tail[j].key)
      {
        assert tail[j] in tail;
      }
    }
  }

  /** Reading after setting: the new value under its key, every other as before. */
  lemma {:induction false} FindAfterPut(items: seq<Member>, key: Key, v: Value, other: Key)
    requires Sorted(items) && AllOfKind(items, key) && SameKind(key, other)
    ensures Find(Put(items, key, v), other) == if other == key then Some(v) else Find(items, other)
  {
    if items != [] && !KeyLess(key, items[0].key) && items[0].key != key {
      TailIsSorted(items);
      FindAfterPut(items[1..], key, v, other);
    }
  }

  /** The number of slots of an array, up to its last index; the number of members of
      an object. */
  function Count(v: Value): nat
    requires WellFormed(v)
  {
    match v.payload
    case Array(items) => if items == [] then 0 else items[|items| - 1].key.i + 1
    case Object(items) => |items|
    case _ => 0
  }

  /** An array's slot; a missing one reads as null. */
  function Slot(v: Value, i: nat): Value {
    match v.payload
    case Array(items) => (match Find(items, Index(i)) case Some(x) => x case None => NULL_VALUE)
    case _ => NULL_VALUE
  }
}
