/** What every document leads to: a well-formed value, failed or not. */
module JsonSound {
  import opened JsonValue
  import opened JsonOrder
  import opened Decimal
  import opened JsonScanner
  import opened JsonReading
  import opened JsonText
  import opened JsonRoundTrip

  /** Keys in order, integers within their width, every string with text. */
  predicate Sound(v: Value) {
    WellFormed(v) && NullStrFree(v)
  }

  predicate SoundContainer(v: Value) {
    IsContainer(v.payload) && Sound(v)
  }

  predicate SoundOutcome(r: Outcome) {
    Sound(r.value)
  }

  lemma ReferenceIsSound(v: Value, key: Key)
    requires SoundContainer(v)
    ensures Sound(Reference(v, key))
  {
    var items := v.payload.items;
    if Find(items, key).Some? {
      FoundIsElement(items, key);
      var k :| 0 <= k < |items| && items[k] == Member(key, Find(items, key).value);
      assert AllWellFormed(items) && AllNullStrFree(items);
      assert WellFormedMember(items[k]) && NullStrFreeMember(items[k]);
    }
  }

  lemma AssignIsSound(v: Value, key: Key, x: Value)
    requires SoundContainer(v) && Sound(x) && key.Name? == v.payload.Object?
    ensures SoundContainer(Assign(v, key, x)) && Assign(v, key, x).payload.Object? == v.payload.Object?
  {
    var items, more := v.payload.items, Put(v.payload.items, key, x);
    PutKeepsSorted(items, key, x);
    assert AllWellFormed(items) && AllNullStrFree(items);
    forall k | 0 <= k < |more|
      ensures WellFormedMember(more[k]) && NullStrFreeMember(more[k]) && SameKind(more[k].key, key)
    {
      assert more[k] in more;
      assert more[k] == Member(key, x) || more[k] in items;
      if more[k] in items {
        var j :| 0 <= j < |items| && items[j] == more[k];
        assert WellFormedMember(items[j]) && NullStrFreeMember(items[j]);
      }
    }
  }

  lemma NumbersAreSound(text: string, dbl: DoubleReader, start: nat, end: nat)
    requires DecodeNumber(text, dbl).Some?
    ensures Sound(Value(DecodeNumber(text, dbl).value, start, end))
  {
  }

  lemma EmptyIsSound(start: nat, limit: nat)
    ensures SoundContainer(Value(Object([]), start, limit)) && SoundContainer(Value(Array([]), start, limit))
  {
    assert Sorted([]) && AllWellFormed([]) && AllNullStrFree([]);
  }

  /** Whatever the document, what is read over a sound value is sound, however reading
      ends. */
  lemma {:induction false} ReadIsSound(doc: string, dbl: DoubleReader, pos: nat, depth: nat, v: Value)
    requires pos <= |doc| && Sound(v)
    ensures SoundOutcome(ReadValue(doc, dbl, pos, depth, v))
    decreases |doc| - pos, 0
  {
    hide SkipComments, ReadMembers, ReadArray, DecodeString, DecodeNumber, Content;
    if depth < STACK_LIMIT {
      var t := SkipComments(doc, pos);
      EmptyIsSound(t.start, v.limit);
      if t.kind == ObjectBegin {
        MembersAreSound(doc, dbl, t.end, depth + 1, Value(Object([]), t.start, v.limit), "");
      } else if t.kind == ArrayBegin {
        ArrayIsSound(doc, dbl, t.end, depth + 1, Value(Array([]), t.start, v.limit));
      } else if t.kind == NumberToken && DecodeNumber(Content(doc, t), dbl).Some? {
        NumbersAreSound(Content(doc, t), dbl, t.start, t.end);
      }
    }
  }

  lemma {:induction false} MembersAreSound(doc: string, dbl: DoubleReader, pos: nat, depth: nat, v: Value, name: string)
    requires pos <= |doc| && SoundContainer(v) && v.payload.Object?
    ensures SoundOutcome(ReadMembers(doc, dbl, pos, depth, v, name))
    decreases |doc| - pos, 1
  {
    hide SkipComments, ReadToken, ReadValue, AfterMember, DecodeString, RecoveryEnd, Reference, Assign, Sound;
    var t := SkipComments(doc, pos);
    if t.kind == StringToken && DecodeString(doc, t.start + 1, t.end - 1).Text? {
      var d, colon := DecodeString(doc, t.start + 1, t.end - 1), ReadToken(doc, t.end);
      if colon.kind == MemberSeparator {
        var key := Name(d.s);
        ReferenceIsSound(v, key);
        ReadIsSound(doc, dbl, colon.end, depth, Reference(v, key));
        var child := ReadValue(doc, dbl, colon.end, depth, Reference(v, key));
        AssignIsSound(v, key, child.value);
        if child.Read? {
          NextIsSound(doc, dbl, child.next, depth, Assign(v, key, child.value), d.s);
        }
      }
    }
  }

  lemma {:induction false} NextIsSound(doc: string, dbl: DoubleReader, pos: nat, depth: nat, v: Value, name: string)
    requires pos <= |doc| && SoundContainer(v) && v.payload.Object?
    ensures SoundOutcome(AfterMember(doc, dbl, pos, depth, v, name))
    decreases |doc| - pos, 2
  {
    hide ReadMembers, RecoveryEnd, Sound, TokenAt, SkipSpaces;
    var comma := SkipComments(doc, pos);
    if comma.end > pos {
      MembersAreSound(doc, dbl, comma.end, depth, v, name);
    }
  }

  lemma {:induction false} ArrayIsSound(doc: string, dbl: DoubleReader, pos: nat, depth: nat, v: Value)
    requires pos <= |doc| && SoundContainer(v) && v.payload.Array?
    ensures SoundOutcome(ReadArray(doc, dbl, pos, depth, v))
    decreases |doc| - pos, 2
  {
    hide ReadElements, SkipSpaces, Sound;
    ElementsAreSound(doc, dbl, SkipSpaces(doc, pos), depth, v, 0);
  }

  lemma {:induction false} ElementsAreSound(doc: string, dbl: DoubleReader, pos: nat, depth: nat, v: Value, index: nat)
    requires pos <= |doc| && SoundContainer(v) && v.payload.Array?
    ensures SoundOutcome(ReadElements(doc, dbl, pos, depth, v, index))
    decreases |doc| - pos, 1
  {
    hide SkipComments, ReadValue, RecoveryEnd, Reference, Assign, Sound;
    var key := Index(index);
    ReferenceIsSound(v, key);
    ReadIsSound(doc, dbl, pos, depth, Reference(v, key));
    var child := ReadValue(doc, dbl, pos, depth, Reference(v, key));
    AssignIsSound(v, key, child.value);
    if child.Read? {
      var t := SkipComments(doc, child.next);
      if child.ok && t.kind == ArraySeparator {
        ElementsAreSound(doc, dbl, t.end, depth, Assign(v, key, child.value), index + 1);
      }
    }
  }
}
