/**
 What the JSON reader computes, as functions of the document and a position: the value
 read, where reading stops, and the error, if any.
 */
module JsonReading {
  import opened Wrappers
  import opened JsonValue
  import opened JsonOrder
  import opened Decimal
  import opened JsonScanner

  /** How the C++ library turns number text that is no fitting integer into a double,
      if it does. */
  type DoubleReader = string -> Option<Double>

  datatype ErrorInfo = ErrorInfo(message: Message, token: Token, extra: Option<nat>)

  /** The result of reading a value: the depth exception, success or failure, each with
      the value as far as it was built and the place where reading stopped. */
  datatype Outcome =
    | Thrown(value: Value, next: nat)
    | Read(ok: bool, value: Value, next: nat, errors: seq<ErrorInfo>)

  const STACK_LIMIT: nat := 1000

  function Content(doc: string, t: Token): string
    requires t.start <= t.end <= |doc|
  {
    doc[t.start..t.end]
  }

  /** The payload of a number token. */
  function DecodeNumber(text: string, dbl: DoubleReader): Option<Payload> {
    var i := DecodeInteger(text);
    if i.Some? then Some(Canonical(i.value))
    else match dbl(text)
      case Some(d) => Some(Real(d))
      case None => None
  }

  /** Gives up on a container: skip to its end, keeping the first error only. */
  function Recover(doc: string, v: Value, pos: nat, until: Kind, errors: seq<ErrorInfo>): (r: Outcome)
    requires pos <= |doc|
    ensures r.Read? && !r.ok && r.errors == errors && r.value == v && pos <= r.next <= |doc|
  {
    Read(false, v, RecoveryEnd(doc, pos, until), errors)
  }

  function Fail(doc: string, v: Value, t: Token, message: Message, until: Kind): (r: Outcome)
    requires t.end <= |doc|
    ensures r.Read? && !r.ok && |r.errors| == 1 && r.value == v && t.end <= r.next <= |doc|
  {
    Recover(doc, v, t.end, until, [ErrorInfo(message, t, None)])
  }

  /** The value under a key of a container, null when it is new. */
  function Reference(v: Value, key: Key): Value {
    match Find(Items(v), key)
    case Some(x) => x
    case None => NULL_VALUE
  }

  /** The container with the value under a key set. */
  function Assign(v: Value, key: Key, x: Value): Value {
    match v.payload
    case Array(items) => v.(payload := Array(Put(items, key, x)))
    case Object(items) => v.(payload := Object(Put(items, key, x)))
    case _ => v
  }

  /** Every reading stops within the document; success comes with no error, failure
      with exactly one. */
  predicate Total(doc: string, pos: nat, r: Outcome) {
    pos <= r.next <= |doc| && (r.Read? ==> |r.errors| == if r.ok then 0 else 1)
  }

  /** Reads one value over the current one. */
  function ReadValue(doc: string, dbl: DoubleReader, pos: nat, depth: nat, v: Value): (r: Outcome)
    requires pos <= |doc|
    ensures Total(doc, pos, r)
    decreases |doc| - pos, 0
  {
    if depth >= STACK_LIMIT then Thrown(v, pos)
    else
      var t := SkipComments(doc, pos);
      if t.kind == ObjectBegin then Limit(ReadMembers(doc, dbl, t.end, depth + 1, Value(Object([]), t.start, v.limit), ""))
      else if t.kind == ArrayBegin then Limit(ReadArray(doc, dbl, t.end, depth + 1, Value(Array([]), t.start, v.limit)))
      else ReadScalar(doc, dbl, t, v)
  }

  /** The value of a scalar's token, or why there is none. */
  function ReadScalar(doc: string, dbl: DoubleReader, t: Token, v: Value): (r: Outcome)
    requires t.start <= t.end <= |doc| && (t.kind == StringToken ==> t.start + 2 <= t.end)
    ensures r.Read? && r.next == t.end && |r.errors| == if r.ok then 0 else 1
    ensures r.ok ==> IsScalarToken(t.kind)
  {
    match t.kind
    case NumberToken =>
      var p := DecodeNumber(Content(doc, t), dbl);
      if p.Some? then Read(true, Value(p.value, t.start, t.end), t.end, [])
      else Read(false, v, t.end, [ErrorInfo(NotANumber(Content(doc, t)), t, None)])
    case StringToken =>
      var d := DecodeString(doc, t.start + 1, t.end - 1);
      if d.Text? then Read(true, Value(Str(d.s), t.start, t.end), t.end, [])
      else Read(false, v, t.end, [ErrorInfo(d.message, t, Some(d.extra))])
    case TrueToken => Read(true, Value(Bool(true), t.start, t.end), t.end, [])
    case FalseToken => Read(true, Value(Bool(false), t.start, t.end), t.end, [])
    case NullToken => Read(true, Value(Null, t.start, t.end), t.end, [])
    case _ => Read(false, v.(start := t.start, limit := t.end), t.end, [ErrorInfo(ValueExpected, t, None)])
  }

  /** The container's range ends where reading stopped. */
  function Limit(r: Outcome): (s: Outcome)
    ensures s.Read? == r.Read?
    ensures s.next == r.next && s.value.payload == r.value.payload
    ensures s.Read? ==> s.ok == r.ok && s.errors == r.errors
  {
    if r.Thrown? then r else r.(value := r.value.(limit := r.next))
  }

  /** Reads the rest of an object whose members so far are in `v`; `name` is the last
      one's. */
  function ReadMembers(doc: string, dbl: DoubleReader, pos: nat, depth: nat, v: Value, name: string): (r: Outcome)
    requires pos <= |doc|
    ensures Total(doc, pos, r)
    decreases |doc| - pos, 1
  {
    var t := SkipComments(doc, pos);
    if t.kind == ObjectEnd && name == "" then Read(true, v, t.end, [])
    else if t.kind != StringToken then Fail(doc, v, t, MemberNameExpected, ObjectEnd)
    else
      var d := DecodeString(doc, t.start + 1, t.end - 1);
      if d.Bad? then Recover(doc, v, t.end, ObjectEnd, [ErrorInfo(d.message, t, Some(d.extra))])
      else
        var colon := ReadToken(doc, t.end);
        if colon.kind != MemberSeparator then Fail(doc, v, colon, ColonExpected, ObjectEnd)
        else
          var key := Name(d.s);
          var child := ReadValue(doc, dbl, colon.end, depth, Reference(v, key));
          var w := Assign(v, key, child.value);
          if child.Thrown? then Thrown(w, child.next)
          else if !child.ok then Recover(doc, w, child.next, ObjectEnd, child.errors)
          else AfterMember(doc, dbl, child.next, depth, w, d.s)
  }

  /** Goes on after a member. A comment excuses any token in place of the comma. */
  function AfterMember(doc: string, dbl: DoubleReader, pos: nat, depth: nat, v: Value, name: string): (r: Outcome)
    requires pos <= |doc|
    ensures Total(doc, pos, r)
    decreases |doc| - pos, 2
  {
    var first := ReadToken(doc, pos);
    var comma := SkipComments(doc, pos);
    if first.kind != ObjectEnd && first.kind != ArraySeparator && first.kind != Comment then
      Fail(doc, v, first, MemberEndExpected, ObjectEnd)
    else if comma.kind == ObjectEnd then Read(true, v, comma.end, [])
    else ReadMembers(doc, dbl, comma.end, depth, v, name)
  }

  /** Reads an array after its opening bracket. */
  function ReadArray(doc: string, dbl: DoubleReader, pos: nat, depth: nat, v: Value): (r: Outcome)
    requires pos <= |doc|
    ensures Total(doc, pos, r)
    decreases |doc| - pos, 2
  {
    var start := SkipSpaces(doc, pos);
    if At(doc, start) == ']' then Read(true, v, start + 1, [])
    else ReadElements(doc, dbl, start, depth, v, 0)
  }

  /** Reads the elements of an array from an index on. */
  function ReadElements(doc: string, dbl: DoubleReader, pos: nat, depth: nat, v: Value, index: nat): (r: Outcome)
    requires pos <= |doc|
    ensures Total(doc, pos, r)
    decreases |doc| - pos, 1
  {
    var key := Index(index);
    var child := ReadValue(doc, dbl, pos, depth, Reference(v, key));
    var w := Assign(v, key, child.value);
    if child.Thrown? then Thrown(w, child.next)
    else if !child.ok then Recover(doc, w, child.next, ArrayEnd, child.errors)
    else
      var t := SkipComments(doc, child.next);
      if t.kind == ArrayEnd then Read(true, w, t.end, [])
      else if t.kind == ArraySeparator then ReadElements(doc, dbl, t.end, depth, w, index + 1)
      else Fail(doc, w, t, ElementEndExpected, ArrayEnd)
  }

  /** Parsing a document: one value from its start; what follows is ignored. */
  function Parse(doc: string, dbl: DoubleReader, root: Value): (r: Outcome)
    ensures Total(doc, 0, r)
  {
    ReadValue(doc, dbl, 0, 0, root)
  }
}
