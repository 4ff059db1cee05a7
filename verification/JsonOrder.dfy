/** The comparison operators of JSON values, through nested arrays and objects. */
module JsonOrder {
  import opened JsonValue

  /** The order of the type tags. */
  function Rank(p: Payload): nat {
    match p
    case Null => 0
    case Int(_) => 1
    case UInt(_) => 2
    case Real(_) => 3
    case NullStr => 4
    case Str(_) => 4
    case Bool(_) => 5
    case Array(_) => 6
    case Object(_) => 7
  }

  predicate DoubleLess(a: Double, b: Double) {
    match a
    case NaN => false
    case NegInf => b != NaN && b != NegInf
    case PosInf => false
    case Finite(r) => b == PosInf || (b.Finite? && r < b.r)
  }

  /** `operator<`: by type, then within the type; containers by size first. */
  predicate Less(a: Value, b: Value)
    decreases Size(a) + Size(b), 0
  {
    var p, q := a.payload, b.payload;
    if Rank(p) != Rank(q) then Rank(p) < Rank(q)
    else match p
      case Null => false
      case Int(i) => i < q.i
      case UInt(u) => u < q.u
      case Real(d) => DoubleLess(d, q.d)
      case Bool(x) => !x && q.b
      case NullStr => q.Str?
      case Str(s) => q.Str? && StringLess(s, q.s)
      case Array(_) => if |p.items| != |q.items| then |p.items| < |q.items| else ItemsLess(p.items, q.items)
      case Object(_) => if |p.items| != |q.items| then |p.items| < |q.items| else ItemsLess(p.items, q.items)
  }

  /** Lexicographic order of the maps' entries. */
  predicate ItemsLess(xs: seq<Member>, ys: seq<Member>)
    decreases SizeOfAll(xs) + SizeOfAll(ys), 2
  {
    && ys != []
    && (xs == [] || MemberLess(xs[0], ys[0]) || (!MemberLess(ys[0], xs[0]) && ItemsLess(xs[1..], ys[1..])))
  }

  predicate MemberLess(x: Member, y: Member)
    decreases SizeOf(x) + SizeOf(y), 1
  {
    KeyLess(x.key, y.key) || (!KeyLess(y.key, x.key) && Less(x.value, y.value))
  }

  /** `operator==`. */
  predicate Equal(a: Value, b: Value)
    decreases Size(a), 0
  {
    var p, q := a.payload, b.payload;
    && Rank(p) == Rank(q)
    && match p
       case Null => true
       case Int(i) => i == q.i
       case UInt(u) => u == q.u
       case Real(d) => d == q.d && d != NaN
       case Bool(x) => x == q.b
       case NullStr => q.NullStr?
       case Str(s) => q.Str? && s == q.s
       case Array(_) => ItemsEqual(p.items, q.items)
       case Object(_) => ItemsEqual(p.items, q.items)
  }

  predicate ItemsEqual(xs: seq<Member>, ys: seq<Member>)
    decreases SizeOfAll(xs), 2
  {
    if xs == [] || ys == [] then xs == ys
    else MemberEqual(xs[0], ys[0]) && ItemsEqual(xs[1..], ys[1..])
  }

  predicate MemberEqual(x: Member, y: Member)
    decreases SizeOf(x), 1
  {
    x.key == y.key && Equal(x.value, y.value)
  }

  /** The three-way comparison built from the two operators. */
  function Compare(a: Value, b: Value): int {
    if Less(a, b) then -1 else if Less(b, a) then 1 else 0
  }

  // ----- What the operators compare -----

  /** The types in order: null, signed, unsigned, double, string, boolean, array, object. */
  predicate TypeBefore(p: Payload, q: Payload) {
    || (p.Null? && !q.Null?)
    || (p.Int? && !q.Null? && !q.Int?)
    || (p.UInt? && !q.Null? && !q.Int? && !q.UInt?)
    || (p.Real? && (q.NullStr? || q.Str? || q.Bool? || q.Array? || q.Object?))
    || ((p.NullStr? || p.Str?) && (q.Bool? || q.Array? || q.Object?))
    || (p.Bool? && (q.Array? || q.Object?))
    || (p.Array? && q.Object?)
  }

  /** Values of different types are ordered by type alone. */
  lemma TypesCompare(a: Value, b: Value)
    ensures TypeBefore(a.payload, b.payload) ==> Less(a, b) && !Less(b, a)
  {
  }

  /** Scalars of one type: integers and doubles by number, infinities at the ends and NaN
      nowhere, strings byte by byte after a missing text, false before true. */
  lemma ScalarsCompare(a: Value, b: Value)
    ensures var p, q := a.payload, b.payload;
            && (p.Int? && q.Int? ==> (Less(a, b) <==> p.i < q.i))
            && (p.UInt? && q.UInt? ==> (Less(a, b) <==> p.u < q.u))
            && (p.Real? && q.Real? && p.d.Finite? && q.d.Finite? ==> (Less(a, b) <==> p.d.r < q.d.r))
            && (p.Real? && q.Real? && (p.d.NaN? || q.d.NaN?) ==> !Less(a, b))
            && (p.Real? && q.Real? && p.d.NegInf? && !q.d.NaN? ==> (Less(a, b) <==> !q.d.NegInf?))
            && (p.Real? && q.Real? && q.d.PosInf? && !p.d.NaN? ==> (Less(a, b) <==> !p.d.PosInf?))
            && (p.Real? && q.Real? && (p.d.PosInf? || q.d.NegInf?) ==> !Less(a, b))
            && (p.Str? && q.Str? ==> (Less(a, b) <==> StringBefore(p.s, q.s)))
            && (p.NullStr? ==> (q.Str? ==> Less(a, b)) && (q.NullStr? ==> !Less(a, b)))
            && (p.Str? && q.NullStr? ==> !Less(a, b))
            && (p.Bool? && q.Bool? ==> (Less(a, b) <==> !p.b && q.b))
  {
    if a.payload.Str? && b.payload.Str? {
      StringLessIff(a.payload.s, b.payload.s);
    }
  }

  /** Members differ first at `k`, where those of `xs` come first. */
  predicate FirstLessAt(xs: seq<Member>, ys: seq<Member>, k: nat)
    requires k < |xs| == |ys|
  {
    && (forall j :: 0 <= j < k ==> !MemberLess(xs[j], ys[j]) && !MemberLess(ys[j], xs[j]))
    && MemberLess(xs[k], ys[k])
  }

  lemma {:induction false} ItemsLessIff(xs: seq<Member>, ys: seq<Member>)
    requires |xs| == |ys|
    ensures ItemsLess(xs, ys) <==> exists k :: 0 <= k < |xs| && FirstLessAt(xs, ys, k)
    decreases |xs|
  {
    hide MemberLess;
    if xs != [] {
      ItemsLessIff(xs[1..], ys[1..]);
      if MemberLess(xs[0], ys[0]) {
        assert FirstLessAt(xs, ys, 0);
      } else if k :| 0 <= k < |xs[1..]| && FirstLessAt(xs[1..], ys[1..], k) && !MemberLess(ys[0], xs[0]) {
        assert FirstLessAt(xs, ys, k + 1);
      } else if k :| 0 <= k < |xs| && FirstLessAt(xs, ys, k) {
        assert forall j :: 0 <= j < k - 1 ==> xs[1..][j] == xs[j + 1] && ys[1..][j] == ys[j + 1];
        assert k > 0 && FirstLessAt(xs[1..], ys[1..], k - 1);
      }
    }
  }

  /** Containers of one type: the smaller first, and among equally large ones the first
      member that differs decides, by its key and then by its value. */
  lemma ContainersCompare(a: Value, b: Value)
    requires IsContainer(a.payload) && IsContainer(b.payload) && a.payload.Array? == b.payload.Array?
    ensures var xs, ys := a.payload.items, b.payload.items;
            Less(a, b) <==> |xs| < |ys| || (|xs| == |ys| && exists k :: 0 <= k < |xs| && FirstLessAt(xs, ys, k))
  {
    hide MemberLess, ItemsLess;
    if |a.payload.items| == |b.payload.items| {
      ItemsLessIff(a.payload.items, b.payload.items);
    }
  }

  lemma MembersCompare(x: Member, y: Member)
    requires SameKind(x.key, y.key)
    ensures MemberLess(x, y)
       <==> (if x.key.Index? then x.key.i < y.key.i else StringBefore(x.key.s, y.key.s)) || (x.key == y.key && Less(x.value, y.value))
  {
    hide Less;
    KeyLessMeans(x.key, y.key);
    KeyTrichotomy(x.key, y.key);
  }

  predicate NaNFree(v: Value) {
    match v.payload
    case Real(d) => d != NaN
    case Array(items) => AllNaNFree(items)
    case Object(items) => AllNaNFree(items)
    case _ => true
  }

  predicate AllNaNFree(items: seq<Member>) {
    forall k :: 0 <= k < |items| ==> NaNFreeMember(items[k])
  }

  predicate NaNFreeMember(m: Member) {
    NaNFree(m.value)
  }

  /** The value without the byte ranges it was read from. */
  function Erase(v: Value): Value {
    match v.payload
    case Array(items) => Value(Array(EraseAll(items)), 0, 0)
    case Object(items) => Value(Object(EraseAll(items)), 0, 0)
    case p => Value(p, 0, 0)
  }

  function EraseAll(items: seq<Member>): (r: seq<Member>)
    ensures |r| == |items|
    ensures forall k :: 0 <= k < |items| ==> r[k].key == items[k].key
  {
    if items == [] then [] else [EraseMember(items[0])] + EraseAll(items[1..])
  }

  function EraseMember(m: Member): Member {
    Member(m.key, Erase(m.value))
  }

  // ----- A strict total order -----

  /** No two values precede one another. */
  lemma {:induction false} Asymmetric(a: Value, b: Value)
    requires WellFormed(a) && WellFormed(b)
    ensures !(Less(a, b) && Less(b, a))
    decreases Size(a) + Size(b), 0
  {
    var p, q := a.payload, b.payload;
    if Rank(p) == Rank(q) {
      if p.Str? && q.Str? {
        StringTrichotomy(p.s, q.s);
      } else if IsContainer(p) && |p.items| == |q.items| {
        ItemsAsymmetric(p.items, q.items);
      }
    }
  }

  ghost predicate SameKinds(xs: seq<Member>, ys: seq<Member>) {
    forall i, j :: 0 <= i < |xs| && 0 <= j < |ys| ==> SameKind(xs[i].key, ys[j].key)
  }

  lemma {:induction false} ItemsAsymmetric(xs: seq<Member>, ys: seq<Member>)
    requires AllWellFormed(xs) && AllWellFormed(ys) && SameKinds(xs, ys)
    ensures !(ItemsLess(xs, ys) && ItemsLess(ys, xs))
    decreases SizeOfAll(xs) + SizeOfAll(ys), 2
  {
    if xs != [] && ys != [] {
      MemberAsymmetric(xs[0], ys[0]);
      ItemsAsymmetric(xs[1..], ys[1..]);
    }
  }

  lemma {:induction false} MemberAsymmetric(x: Member, y: Member)
    requires WellFormed(x.value) && WellFormed(y.value) && SameKind(x.key, y.key)
    ensures !(MemberLess(x, y) && MemberLess(y, x))
    decreases SizeOf(x) + SizeOf(y), 1
  {
    KeyTrichotomy(x.key, y.key);
    Asymmetric(x.value, y.value);
  }

  /** If `a` precedes `c`, every NaN-free value is above `a` or below `c`. */
  lemma {:induction false} NegativelyTransitive(a: Value, b: Value, c: Value)
    requires WellFormed(a) && WellFormed(b) && WellFormed(c)
    requires NaNFree(a) && NaNFree(b) && NaNFree(c) && Less(a, c)
    ensures Less(a, b) || Less(b, c)
    decreases Size(a) + Size(b) + Size(c), 0
  {
    var p, q, r := a.payload, b.payload, c.payload;
    if Rank(p) == Rank(q) == Rank(r) {
      if p.Str? && q.Str? && r.Str? {
        StringTrichotomy(p.s, q.s);
        if !StringLess(p.s, q.s) && StringLess(q.s, p.s) {
          StringLessTransitive(q.s, p.s, r.s);
        }
      } else if IsContainer(p) && |p.items| == |q.items| == |r.items| {
        ItemsNegativelyTransitive(p.items, q.items, r.items);
      }
    }
  }

  lemma {:induction false} ItemsNegativelyTransitive(xs: seq<Member>, ys: seq<Member>, zs: seq<Member>)
    requires AllWellFormed(xs) && AllWellFormed(ys) && AllWellFormed(zs)
    requires AllNaNFree(xs) && AllNaNFree(ys) && AllNaNFree(zs)
    requires SameKinds(xs, ys) && SameKinds(ys, zs) && SameKinds(xs, zs)
    requires |xs| == |ys| == |zs| && ItemsLess(xs, zs)
    ensures ItemsLess(xs, ys) || ItemsLess(ys, zs)
    decreases SizeOfAll(xs) + SizeOfAll(ys) + SizeOfAll(zs), 2
  {
    var x, y, z := xs[0], ys[0], zs[0];
    if MemberLess(x, z) {
      MemberNegativelyTransitive(x, y, z);
    } else {
      assert SizeOf(x) > 0 && SizeOf(y) > 0 && SizeOf(z) > 0;
      ItemsNegativelyTransitive(xs[1..], ys[1..], zs[1..]);
      if MemberLess(y, x) {
        MemberNegativelyTransitive(y, z, x);
      }
      if MemberLess(z, y) {
        MemberNegativelyTransitive(z, x, y);
      }
    }
  }

  lemma {:induction false} MemberNegativelyTransitive(x: Member, y: Member, z: Member)
    requires WellFormed(x.value) && WellFormed(y.value) && WellFormed(z.value)
    requires NaNFree(x.value) && NaNFree(y.value) && NaNFree(z.value)
    requires SameKind(x.key, y.key) && SameKind(y.key, z.key) && MemberLess(x, z)
    ensures MemberLess(x, y) || MemberLess(y, z)
    decreases SizeOf(x) + SizeOf(y) + SizeOf(z), 1
  {
    KeyTrichotomy(x.key, y.key);
    KeyTrichotomy(y.key, z.key);
    KeyTrichotomy(x.key, z.key);
    if KeyLess(y.key, x.key) && KeyLess(x.key, z.key) {
      KeyLessTransitive(y.key, x.key, z.key);
    }
    if Less(x.value, z.value) {
      NegativelyTransitive(x.value, y.value, z.value);
    }
  }

  /** Equality means the same content, byte ranges aside. */
  lemma {:induction false} EqualIffSameContent(a: Value, b: Value)
    requires NaNFree(a) && NaNFree(b)
    ensures Equal(a, b) <==> Erase(a) == Erase(b)
    decreases Size(a), 0
  {
    if IsContainer(a.payload) && Rank(a.payload) == Rank(b.payload) {
      ItemsEqualIffSameContent(a.payload.items, b.payload.items);
    }
  }

  lemma {:induction false} ItemsEqualIffSameContent(xs: seq<Member>, ys: seq<Member>)
    requires AllNaNFree(xs) && AllNaNFree(ys)
    ensures ItemsEqual(xs, ys) <==> EraseAll(xs) == EraseAll(ys)
    decreases SizeOfAll(xs), 2
  {
    if xs != [] && ys != [] {
      MemberEqualIffSameContent(xs[0], ys[0]);
      ItemsEqualIffSameContent(xs[1..], ys[1..]);
      assert EraseAll(xs)[0] == EraseMember(xs[0]) && EraseAll(xs)[1..] == EraseAll(xs[1..]);
      assert EraseAll(ys)[0] == EraseMember(ys[0]) && EraseAll(ys)[1..] == EraseAll(ys[1..]);
    }
  }

  lemma {:induction false} MemberEqualIffSameContent(x: Member, y: Member)
    requires NaNFree(x.value) && NaNFree(y.value)
    ensures MemberEqual(x, y) <==> EraseMember(x) == EraseMember(y)
    decreases SizeOf(x), 1
  {
    EqualIffSameContent(x.value, y.value);
  }

  /** Of two values neither of which precedes the other, each equals the other. */
  lemma {:induction false} EqualIffIncomparable(a: Value, b: Value)
    requires WellFormed(a) && WellFormed(b) && NaNFree(a) && NaNFree(b)
    ensures Equal(a, b) <==> !Less(a, b) && !Less(b, a)
    decreases Size(a) + Size(b), 0
  {
    var p, q := a.payload, b.payload;
    if Rank(p) == Rank(q) {
      if p.Str? && q.Str? {
        StringTrichotomy(p.s, q.s);
      } else if IsContainer(p) {
        if |p.items| == |q.items| {
          ItemsEqualIffIncomparable(p.items, q.items);
        } else {
          EqualItemsHaveEqualLength(p.items, q.items);
        }
      }
    }
  }

  lemma {:induction false} EqualItemsHaveEqualLength(xs: seq<Member>, ys: seq<Member>)
    ensures ItemsEqual(xs, ys) ==> |xs| == |ys|
  {
    if xs != [] && ys != [] {
      EqualItemsHaveEqualLength(xs[1..], ys[1..]);
    }
  }

  lemma {:induction false} ItemsEqualIffIncomparable(xs: seq<Member>, ys: seq<Member>)
    requires AllWellFormed(xs) && AllWellFormed(ys) && AllNaNFree(xs) && AllNaNFree(ys)
    requires SameKinds(xs, ys) && |xs| == |ys|
    ensures ItemsEqual(xs, ys) <==> !ItemsLess(xs, ys) && !ItemsLess(ys, xs)
    decreases SizeOfAll(xs) + SizeOfAll(ys), 2
  {
    if xs != [] {
      MemberEqualIffIncomparable(xs[0], ys[0]);
      MemberAsymmetric(xs[0], ys[0]);
      ItemsEqualIffIncomparable(xs[1..], ys[1..]);
    }
  }

  lemma {:induction false} MemberEqualIffIncomparable(x: Member, y: Member)
    requires WellFormed(x.value) && WellFormed(y.value) && NaNFree(x.value) && NaNFree(y.value) && SameKind(x.key, y.key)
    ensures MemberEqual(x, y) <==> !MemberLess(x, y) && !MemberLess(y, x)
    decreases SizeOf(x) + SizeOf(y), 1
  {
    KeyTrichotomy(x.key, y.key);
    EqualIffIncomparable(x.value, y.value);
  }

  /** On NaN-free values `<` is a strict total order whose ties are exactly `==`, and
      `Compare` is zero exactly on equal values. */
  lemma TotalOrder(a: Value, b: Value, c: Value)
    requires WellFormed(a) && WellFormed(b) && WellFormed(c) && NaNFree(a) && NaNFree(b) && NaNFree(c)
    ensures !Less(a, a)
    ensures Less(a, b) && Less(b, c) ==> Less(a, c)
    ensures Less(a, b) || Equal(a, b) || Less(b, a)
    ensures Compare(a, b) == -Compare(b, a)
    ensures Compare(a, b) == 0 <==> Equal(a, b)
    ensures Equal(a, b) ==> Compare(a, c) == Compare(b, c)
  {
    Asymmetric(a, a);
    Asymmetric(a, b);
    EqualIffIncomparable(a, b);
    if Less(a, b) && Less(b, c) {
      NegativelyTransitive(a, c, b);
      Asymmetric(b, c);
    }
    if Equal(a, b) {
      if Less(a, c) {
        NegativelyTransitive(a, b, c);
        Asymmetric(b, c);
      }
      if Less(b, c) {
        NegativelyTransitive(b, a, c);
      }
      if Less(c, a) {
        NegativelyTransitive(c, b, a);
      }
      if Less(c, b) {
        NegativelyTransitive(c, a, b);
      }
      Asymmetric(a, c);
      Asymmetric(b, c);
    }
  }

  /** The one value of its own type that does not equal itself is one with a NaN. */
  lemma {:induction false} ReflexiveIffNaNFree(v: Value)
    ensures Equal(v, v) <==> NaNFree(v)
    decreases Size(v), 0
  {
    if IsContainer(v.payload) {
      ItemsReflexiveIffNaNFree(v.payload.items);
    }
  }

  lemma {:induction false} ItemsReflexiveIffNaNFree(xs: seq<Member>)
    ensures ItemsEqual(xs, xs) <==> AllNaNFree(xs)
    decreases SizeOfAll(xs), 2
  {
    if xs != [] {
      MemberReflexiveIffNaNFree(xs[0]);
      ItemsReflexiveIffNaNFree(xs[1..]);
      assert AllNaNFree(xs) <==> NaNFreeMember(xs[0]) && AllNaNFree(xs[1..]) by {
        if NaNFreeMember(xs[0]) && AllNaNFree(xs[1..]) {
          assert forall k :: 0 < k < |xs| ==> xs[k] == xs[1..][k - 1];
        }
      }
    }
  }

  lemma {:induction false} MemberReflexiveIffNaNFree(x: Member)
    ensures MemberEqual(x, x) <==> NaNFree(x.value)
    decreases SizeOf(x), 1
  {
    ReflexiveIffNaNFree(x.value);
  }

  /** A NaN, alone or in an array, does not equal itself although neither precedes. */
  lemma NaNIsNotReflexive()
    ensures var nan := Value(Real(NaN), 0, 0);
            var v := Value(Array([Member(Index(0), nan)]), 0, 0);
            !Equal(nan, nan) && !Equal(v, v) && Compare(v, v) == 0
  {
    var nan := Value(Real(NaN), 0, 0);
    var v := Value(Array([Member(Index(0), nan)]), 0, 0);
    assert !NaNFreeMember(v.payload.items[0]);
    ReflexiveIffNaNFree(v);
    assert WellFormedMember(v.payload.items[0]);
    Asymmetric(v, v);
  }
}
