/**
 Parsed values are stable: whatever the document, what a successful parse returns is
 given back, equal, by writing and parsing it again.
 */
module JsonStable {
  import opened Wrappers
  import opened JsonValue
  import opened JsonOrder
  import opened Decimal
  import opened JsonScanner
  import opened JsonReading
  import opened JsonText
  import opened JsonRoundTrip
  import opened JsonLayout
  import opened JsonSound
  import opened JsonFaithful
  import opened JsonOffsets

  /** Integers are stored the reader's way, arrays have every slot. */
  predicate Stored(v: Value) {
    match v.payload
    case Int(i) => i <= MAX_INT
    case UInt(u) => u > MAX_INT
    case Array(items) => (forall k :: 0 <= k < |items| ==> items[k].key == Index(k)) && AllStored(items)
    case Object(items) => AllStored(items)
    case _ => true
  }

  predicate AllStored(items: seq<Member>) {
    forall k :: 0 <= k < |items| ==> StoredMember(items[k])
  }

  predicate StoredMember(m: Member) {
    Stored(m.value)
  }

  /** A container so far: its members are stored values, not too deep. */
  predicate Building(v: Value, depth: nat) {
    IsContainer(v.payload) && forall k :: 0 <= k < |v.payload.items| ==> Fine(v.payload.items[k].value, depth)
  }

  predicate Fine(v: Value, depth: nat) {
    Stored(v) && depth + Depth(v) <= STACK_LIMIT
  }

  /** A successful reading yields a stored value within the depth limit. */
  predicate FineOutcome(r: Outcome, depth: nat) {
    r.Read? && r.ok ==> Fine(r.value, depth)
  }

  predicate BuildingOutcome(r: Outcome, depth: nat, named: bool) {
    r.Read? && r.ok ==> Building(r.value, depth) && r.value.payload.Object? == named && (!named ==> Dense(r.value))
  }

  predicate Dense(v: Value) {
    IsContainer(v.payload) && forall k :: 0 <= k < |v.payload.items| ==> v.payload.items[k].key == Index(k)
  }

  lemma {:induction false} PutKeepsFine(items: seq<Member>, key: Key, x: Value, depth: nat)
    requires Fine(x, depth) && forall k :: 0 <= k < |items| ==> Fine(items[k].value, depth)
    ensures forall k :: 0 <= k < |Put(items, key, x)| ==> Fine(Put(items, key, x)[k].value, depth)
  {
    hide Fine;
    if items != [] && !KeyLess(key, items[0].key) && items[0].key != key {
      PutKeepsFine(items[1..], key, x, depth);
    }
  }

  lemma AssignKeepsBuilding(v: Value, key: Key, x: Value, depth: nat)
    requires Building(v, depth) && Fine(x, depth)
    ensures Building(Assign(v, key, x), depth) && Assign(v, key, x).payload.Object? == v.payload.Object?
  {
    hide Fine;
    PutKeepsFine(v.payload.items, key, x, depth);
  }

  lemma AssignKeepsDense(v: Value, x: Value)
    requires Dense(v) && v.payload.Array?
    ensures Dense(Assign(v, Index(|v.payload.items|), x))
    ensures |Assign(v, Index(|v.payload.items|), x).payload.items| == |v.payload.items| + 1
  {
    PutAtEnd(v.payload.items, Index(|v.payload.items|), x);
  }

  /** A finished container. */
  lemma BuiltIsFine(r: Outcome, depth: nat, named: bool)
    requires BuildingOutcome(r, depth + 1, named) && depth < STACK_LIMIT
    ensures FineOutcome(Limit(r), depth)
  {
    if r.Read? && r.ok {
      var items := r.value.payload.items;
      forall k | 0 <= k < |items|
        ensures StoredMember(items[k]) && Depth(items[k].value) <= STACK_LIMIT - depth - 1
      {
        assert Fine(items[k].value, depth + 1);
      }
      DepthIsBounded(items, STACK_LIMIT - depth - 1);
    }
  }

  lemma ScalarIsFine(doc: string, dbl: DoubleReader, t: Token, depth: nat)
    requires t.start <= t.end <= |doc| && (t.kind == StringToken ==> t.start + 2 <= t.end)
    requires ScalarOf(doc, dbl, t).Some? && depth < STACK_LIMIT
    ensures Fine(Value(ScalarOf(doc, dbl, t).value, t.start, t.end), depth)
  {
    hide DecodeString, Content, DecodeInteger;
  }

  lemma {:induction false} ReadIsFine(doc: string, dbl: DoubleReader, pos: nat, depth: nat, v: Value)
    requires pos <= |doc|
    ensures FineOutcome(ReadValue(doc, dbl, pos, depth, v), depth)
    decreases |doc| - pos, 0
  {
    hide ReadValue, SkipComments, ReadMembers, ReadArray, ScalarOf, Fine, Limit;
    var r, t := ReadValue(doc, dbl, pos, depth, v), SkipComments(doc, pos);
    ReadUnfolds(doc, dbl, pos, depth, v);
    if r.Read? && r.ok {
      if t.kind == ObjectBegin {
        var start := Value(Object([]), t.start, v.limit);
        ObjectUnfolds(doc, dbl, pos, depth, v);
        MembersAreFine(doc, dbl, t.end, depth + 1, start, "");
        BuiltIsFine(ReadMembers(doc, dbl, t.end, depth + 1, start, ""), depth, true);
      } else if t.kind == ArrayBegin {
        var start := Value(Array([]), t.start, v.limit);
        ArrayUnfolds(doc, dbl, pos, depth, v);
        ArrayIsFine(doc, dbl, t.end, depth + 1, start);
        BuiltIsFine(ReadArray(doc, dbl, t.end, depth + 1, start), depth, false);
      } else {
        ReadsScalarToken(doc, dbl, pos, depth, v);
        ScalarIsFine(doc, dbl, t, depth);
      }
    }
  }

  lemma {:induction false} MembersAreFine(doc: string, dbl: DoubleReader, pos: nat, depth: nat, v: Value, name: string)
    requires pos <= |doc| && Building(v, depth) && v.payload.Object?
    ensures BuildingOutcome(ReadMembers(doc, dbl, pos, depth, v, name), depth, true)
    decreases |doc| - pos, 1
  {
    hide ReadValue, SkipComments, ReadToken, ReadMembers, AfterMember, DecodeString, Reference, Assign, Building, Fine;
    var r, t := ReadMembers(doc, dbl, pos, depth, v, name), SkipComments(doc, pos);
    if r.Read? && r.ok {
      var key, at := MembersUnfold(doc, dbl, pos, depth, v, name);
      if !(t.kind == ObjectEnd && name == "") {
        var child := ReadValue(doc, dbl, at, depth, Reference(v, Name(key)));
        ReadIsFine(doc, dbl, at, depth, Reference(v, Name(key)));
        AssignKeepsBuilding(v, Name(key), child.value, depth);
        NextIsFine(doc, dbl, child.next, depth, Assign(v, Name(key), child.value), key);
      }
    }
  }

  lemma {:induction false} NextIsFine(doc: string, dbl: DoubleReader, pos: nat, depth: nat, v: Value, name: string)
    requires pos <= |doc| && Building(v, depth) && v.payload.Object?
    ensures BuildingOutcome(AfterMember(doc, dbl, pos, depth, v, name), depth, true)
    decreases |doc| - pos, 2
  {
    hide SkipComments, ReadToken, ReadMembers, AfterMember, Building;
    var r, comma := AfterMember(doc, dbl, pos, depth, v, name), SkipComments(doc, pos);
    if r.Read? && r.ok {
      AfterUnfolds(doc, dbl, pos, depth, v, name);
      if comma.kind != ObjectEnd {
        MembersAreFine(doc, dbl, comma.end, depth, v, name);
      }
    }
  }

  lemma {:induction false} ArrayIsFine(doc: string, dbl: DoubleReader, pos: nat, depth: nat, v: Value)
    requires pos <= |doc| && Building(v, depth) && v.payload.Array? && v.payload.items == []
    ensures BuildingOutcome(ReadArray(doc, dbl, pos, depth, v), depth, false)
    decreases |doc| - pos, 2
  {
    hide ReadArray, ReadElements, SkipSpaces, Fine;
    ArrayBody(doc, dbl, pos, depth, v);
    ElementsAreFine(doc, dbl, SkipSpaces(doc, pos), depth, v);
  }

  lemma {:induction false} ElementsAreFine(doc: string, dbl: DoubleReader, pos: nat, depth: nat, v: Value)
    requires pos <= |doc| && Building(v, depth) && v.payload.Array? && Dense(v)
    ensures BuildingOutcome(ReadElements(doc, dbl, pos, depth, v, |v.payload.items|), depth, false)
    decreases |doc| - pos, 1
  {
    hide ReadValue, SkipComments, ReadElements, Reference, Assign, Building, Fine, Dense;
    var index := |v.payload.items|;
    var r, key := ReadElements(doc, dbl, pos, depth, v, index), Index(index);
    if r.Read? && r.ok {
      ElementsUnfold(doc, dbl, pos, depth, v, index);
      var child := ReadValue(doc, dbl, pos, depth, Reference(v, key));
      ReadIsFine(doc, dbl, pos, depth, Reference(v, key));
      AssignKeepsBuilding(v, key, child.value, depth);
      AssignKeepsDense(v, child.value);
      BuildingIsContainer(Assign(v, key, child.value), depth);
      if SkipComments(doc, child.next).kind != ArrayEnd {
        ElementsAreFine(doc, dbl, SkipComments(doc, child.next).end, depth, Assign(v, key, child.value));
      }
    }
  }

  lemma BuildingIsContainer(v: Value, depth: nat)
    requires Building(v, depth)
    ensures IsContainer(v.payload)
  {
  }

  /** A stored value is its own normal form. */
  lemma {:induction false} StoredIsNormal(v: Value)
    requires WellFormed(v) && Stored(v)
    ensures Normal(v) == Erase(v)
    decreases Depth(v), 1
  {
    if IsContainer(v.payload) {
      StoredIsListed(v);
      NormalKeepsMembers(v);
      ListedIsShallower(v);
      assert AllStored(v.payload.items) && AllWellFormed(v.payload.items);
      AllStoredAreNormal(v.payload.items);
    }
  }

  lemma StoredIsListed(v: Value)
    requires WellFormed(v) && Stored(v) && IsContainer(v.payload)
    ensures Listed(v) == v.payload.items
  {
    if v.payload.Array? {
      var items, ms := v.payload.items, Listed(v);
      assert |ms| == |items|;
      forall k | 0 <= k < |items|
        ensures ms[k] == items[k]
      {
        FindSorted(items, k);
      }
    }
  }

  lemma {:induction false} AllStoredAreNormal(items: seq<Member>)
    requires AllWellFormed(items) && AllStored(items)
    ensures NormalAll(items) == EraseAll(items)
    decreases DepthOfAll(items), 2 + |items|
  {
    if items != [] {
      assert WellFormedMember(items[0]) && StoredMember(items[0]);
      DepthOfElement(items, 0);
      StoredIsNormal(items[0].value);
      AllStoredAreNormal(items[1..]);
    }
  }

  lemma {:induction false} NaNFreeIsErased(v: Value)
    requires NaNFree(v)
    ensures NaNFree(Erase(v))
  {
    if IsContainer(v.payload) {
      var items := v.payload.items;
      assert AllNaNFree(items);
      forall k | 0 <= k < |items|
        ensures NaNFreeMember(EraseAll(items)[k])
      {
        EraseAllAt(items, k);
        assert NaNFreeMember(items[k]);
        NaNFreeIsErased(items[k].value);
      }
    }
  }

  lemma {:induction false} ErasedKeepsNaNFree(v: Value)
    requires NaNFree(Erase(v))
    ensures NaNFree(v)
  {
    if IsContainer(v.payload) {
      var items := v.payload.items;
      assert AllNaNFree(EraseAll(items));
      forall k | 0 <= k < |items|
        ensures NaNFreeMember(items[k])
      {
        EraseAllAt(items, k);
        assert NaNFreeMember(EraseAll(items)[k]);
        ErasedKeepsNaNFree(items[k].value);
      }
    }
  }

  /** Whatever the document, a parsed value whose doubles the C++ library gives back, and
      that has no NaN, is written to a text that parses to a value equal to it. */
  lemma ParsedIsStable(doc: string, fmt: DoubleWriter, dbl: DoubleReader, root: Value)
    requires Sound(root) && Parse(doc, dbl, root).Read? && Parse(doc, dbl, root).ok
    requires RealsSurvive(Parse(doc, dbl, root).value, fmt, dbl) && NaNFree(Parse(doc, dbl, root).value)
    ensures var v := Parse(doc, dbl, root).value;
            var again := Parse(RenderAll(FastPieces(v, fmt)), dbl, root);
            again.Read? && again.ok && Equal(again.value, v)
  {
    hide RenderAll, FastPieces, ReadValue, Erase, Normal, Equal;
    var v := Parse(doc, dbl, root).value;
    ReadIsSound(doc, dbl, 0, 0, root);
    ReadIsFine(doc, dbl, 0, 0, root);
    RoundTripIff(v, fmt, dbl, root);
    StoredIsNormal(v);
    var again := Parse(RenderAll(FastPieces(v, fmt)), dbl, root);
    NaNFreeIsErased(v);
    ErasedKeepsNaNFree(again.value);
    EqualIffSameContent(again.value, v);
  }
}
