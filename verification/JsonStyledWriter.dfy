/**
 The styled writer: it computes the styled text with a document it looks back at, and
 with a buffer, shared by all levels, for the texts of short arrays' elements.
 */
module JsonStyledWriter {
  import opened Wrappers
  import opened JsonValue
  import opened Decimal
  import opened JsonStrings
  import opened JsonText
  import opened JsonRoundTrip
  import opened JsonFastWriter
  import opened JsonPretty

  class StyledWriter {
    const fmt: DoubleWriter
    const rightMargin: int := 74
    const indentSize: nat := 3
    var document: string
    var indentString: string
    var addChildValues: bool
    var childValues: seq<string>

    constructor (fmt: DoubleWriter)
      ensures this.fmt == fmt
    {
      this.fmt := fmt;
      document, indentString, addChildValues, childValues := [], [], false, [];
    }

    /** Writes a value and a line feed. */
    method Write(root: Value) returns (text: string)
      requires WellFormed(root)
      modifies this
      ensures text == StyledText(root, fmt)
    {
      hide Pretty;
      document, addChildValues, indentString := "", false, "";
      WriteValue(root);
      document := document + "\n";
      text := document;
    }

    /** The text goes to the buffer while that is being filled, else to the document. */
    method PushValue(value: string)
      modifies this`document, this`childValues
      ensures document == if addChildValues then old(document) else old(document) + value
      ensures childValues == if addChildValues then old(childValues) + [value] else old(childValues)
    {
      if addChildValues {
        childValues := childValues + [value];
      } else {
        document := document + value;
      }
    }

    /** Starts a line, unless the document ends with one just started or with a space. */
    method WriteIndent()
      modifies this`document
      ensures document == old(document) + Break(old(document), indentString)
    {
      if document != "" {
        var last := document[|document| - 1];
        if last == ' ' {
          return;
        }
        if last != '\n' {
          document := document + "\n";
        }
      }
      document := document + indentString;
    }

    method WriteWithIndent(value: string)
      modifies this`document
      ensures document == old(document) + Break(old(document), indentString) + value
    {
      WriteIndent();
      document := document + value;
    }

    method Indent()
      modifies this`indentString
      ensures indentString == old(indentString) + STEP
    {
      indentString := indentString + STEP;
    }

    method Unindent()
      requires |indentString| >= indentSize
      modifies this`indentString
      ensures indentString == old(indentString)[..|old(indentString)| - 3]
    {
      indentString := indentString[..|indentString| - indentSize];
    }

    /** `valueToQuotedString`: the text up to the terminator, quoted. */
    method ValueToQuotedString(value: string) returns (result: string)
      ensures result == Quote(CStr(value))
    {
      var text := CStr(value);
      result := ValueToQuotedStringN(text);
    }

    // ----- Values -----

    /** What writing a value has done: its text is in the buffer while that is being filled,
        else in the document, laid out for the current indentation. */
    twostate predicate Written(value: Value)
      reads this
    {
      && indentString == old(indentString) && addChildValues == old(addChildValues)
      && (addChildValues ==> document == old(document) && childValues == old(childValues) + [FlatText(value, fmt)])
      && (!addChildValues ==> document == old(document) + Pretty(value, fmt, indentString))
    }

    /** A value can be written here: a line has been started for it. */
    predicate Ready(value: Value)
      reads this
    {
      && WellFormed(value)
      && if addChildValues then Flat(value) else Break(document, indentString) == []
    }

    method WriteValue(value: Value)
      requires Ready(value)
      modifies this
      ensures Written(value)
      decreases Depth(value), 3
    {
      hide Listed, Line, Joined, OnOneLine, PrettyItems, Break;
      match value.payload {
        case Null => PushValue("null");
        case Int(i) =>
          var text := IntToString(i as int64);
          PushValue(text);
        case UInt(u) =>
          var text := UIntToText(u as uint64);
          PushValue(text);
        case Real(d) => PushValue(fmt(d));
        case NullStr => PushValue("");
        case Str(text) =>
          var quoted := ValueToQuotedStringN(text);
          PushValue(quoted);
        case Bool(b) => PushValue(if b then "true" else "false");
        case Array(_) => WriteArrayValue(value);
        case Object(_) => WriteObjectValue(value);
      }
    }

    // ----- Objects -----

    method WriteObjectValue(value: Value)
      requires Ready(value) && value.payload.Object?
      modifies this
      ensures Written(value)
      decreases Depth(value), 2
    {
      hide PrettyItems, Break;
      var members := GetMemberNames(value);
      if members == [] {
        PushValue("{}");
      } else {
        WriteMembers(value, members);
      }
    }

    /** A member's place in the list. */
    lemma MemberOf(value: Value, k: nat, name: string)
      requires WellFormed(value) && value.payload.Object? && k < |value.payload.items| && value.payload.items[k].key == Name(name)
      ensures Find(value.payload.items, Name(name)) == Some(value.payload.items[k].value)
      ensures WellFormed(value.payload.items[k].value) && Depth(value.payload.items[k].value) < Depth(value)
    {
      var items := value.payload.items;
      FindSorted(items, k);
      DepthOfElement(items, k);
      assert AllWellFormed(items) && WellFormedMember(items[k]);
    }

    method WriteMembers(value: Value, members: seq<string>)
      requires WellFormed(value) && value.payload.Object? && members != [] && !addChildValues
      requires Break(document, indentString) == []
      requires |members| == |value.payload.items|
      requires forall k :: 0 <= k < |members| ==> value.payload.items[k].key == Name(members[k])
      modifies this
      ensures !addChildValues && indentString == old(indentString)
      ensures document == old(document) + Pretty(value, fmt, indentString)
      decreases Depth(value), 1
    {
      hide Find, Pretty, PrettyItems, Break, WellFormed;
      ghost var before, ms, inner := document, value.payload.items, indentString + STEP;
      WriteWithIndent("{");
      Indent();
      var k := 0;
      NoItemsYet(ms, fmt, inner);
      while true
        invariant 0 <= k < |members| && !addChildValues && indentString == inner
        invariant document == before + ItemsSoFar('{', ms, fmt, inner, k)
        decreases |members| - k
      {
        MemberOf(value, k, members[k]);
        WriteName(members[k]);
        NextLine(before, '{', ms, fmt, inner, k);
        ReadyAfterLabel(before + ItemsSoFar('{', ms, fmt, inner, k), inner, ms[k].key);
        WriteValue(Find(value.payload.items, Name(members[k])).value);
        k := k + 1;
        if k == |members| {
          break;
        }
        document := document + ",";
      }
      Unindent();
      WriteWithIndent("}");
      Closes(value, fmt, before, indentString);
    }

    method WriteName(name: string)
      modifies this`document
      ensures document == old(document) + Break(old(document), indentString) + PrettyLabel(Name(name))
    {
      var text := ValueToQuotedString(name);
      WriteWithIndent(text);
      document := document + " : ";
    }

    // ----- Arrays -----

    lemma CountsListed(v: Value)
      requires WellFormed(v) && IsContainer(v.payload)
      ensures |Listed(v)| == Count(v)
    {
    }

    /** An element's place in the list. */
    lemma ElementOf(value: Value, i: nat)
      requires WellFormed(value) && value.payload.Array? && i < Count(value)
      ensures |Listed(value)| == Count(value) && Listed(value)[i] == Member(Index(i), Slot(value, i))
      ensures WellFormed(Slot(value, i)) && Depth(Slot(value, i)) < Depth(value)
    {
      CountsListed(value);
      SlotsAreWellFormed(value, i);
      DepthOfElement(Listed(value), i);
      ListedIsShallower(value);
    }

    /** The buffer holds the texts of an array's first `n` elements. */
    ghost predicate Buffered(value: Value, n: nat)
      requires value.payload.Array?
      reads this
    {
      |childValues| == n
      && forall j :: 0 <= j < n ==> Flat(Slot(value, j)) && childValues[j] == FlatText(Slot(value, j), fmt)
    }

    /** Whether an array needs a line for each element; if that depends on their lengths,
        their texts are left in the buffer. */
    method IsMultilineArray(value: Value) returns (isMultiLine: bool)
      requires WellFormed(value) && value.payload.Array? && Count(value) > 0 && !addChildValues
      modifies this
      ensures !addChildValues && indentString == old(indentString) && document == old(document)
      ensures isMultiLine <==> !OnOneLine(value, fmt)
      ensures childValues == [] || Buffered(value, Count(value))
      ensures !isMultiLine ==> childValues != []
      decreases Depth(value), 1
    {
      hide FlatText, Find, Joined, Flat, Pretty, Break;
      CountsListed(value);
      var size := Count(value);
      isMultiLine := size * 3 >= rightMargin;
      childValues := [];
      var index := 0;
      while index < size && !isMultiLine
        invariant 0 <= index <= size && childValues == []
        invariant isMultiLine ==> !OnOneLine(value, fmt)
        invariant !isMultiLine ==> size * 3 < rightMargin && forall j :: 0 <= j < index ==> Flat(Slot(value, j))
        modifies {}
      {
        var childValue := Slot(value, index);
        ElementOf(value, index);
        isMultiLine := IsContainer(childValue.payload) && Count(childValue) > 0;
        FlatIff(childValue);
        index := index + 1;
      }
      if !isMultiLine {
        addChildValues := true;
        var lineLength := 4 + (size - 1) * 2;
        ghost var ms := Listed(value);
        NoneJoined(ms, fmt);
        for i := 0 to size
          invariant addChildValues && indentString == old(indentString) && document == old(document)
          invariant Buffered(value, i)
          invariant lineLength == 4 + (size - 1) * 2 + |Joined(ms, fmt, i)| - (if i > 0 then (i - 1) * 2 else 0)
        {
          ElementOf(value, i);
          WriteValue(Slot(value, i));
          lineLength := lineLength + |childValues[i]|;
          OneMoreJoined(ms, fmt, i);
        }
        addChildValues := false;
        isMultiLine := lineLength >= rightMargin;
      }
    }

    lemma FlatIff(v: Value)
      requires WellFormed(v)
      ensures Flat(v) <==> !(IsContainer(v.payload) && Count(v) > 0)
    {
      if IsContainer(v.payload) {
        CountsListed(v);
      }
    }

    /** Writes an array: in one line from the buffer, or a line for each element. Nested
        arrays may refill the buffer, but only where nothing more is read from it. */
    method WriteArrayValue(value: Value)
      requires Ready(value) && value.payload.Array?
      modifies this
      ensures Written(value)
      decreases Depth(value), 2
    {
      hide Joined, PrettyItems, Break, Find, OnOneLine, Line;
      CountsListed(value);
      var size := Count(value);
      if size == 0 {
        PushValue("[]");
      } else {
        var isArrayMultiLine := IsMultilineArray(value);
        if isArrayMultiLine {
          WriteLines(value);
        } else {
          WriteLine(value);
        }
      }
    }

    method WriteLines(value: Value)
      requires WellFormed(value) && value.payload.Array? && Count(value) > 0 && !addChildValues
      requires Break(document, indentString) == [] && !OnOneLine(value, fmt)
      requires childValues == [] || Buffered(value, Count(value))
      modifies this
      ensures !addChildValues && indentString == old(indentString)
      ensures document == old(document) + Pretty(value, fmt, indentString)
      decreases Depth(value), 1
    {
      hide Find, Pretty, PrettyItems, Break, WellFormed, Listed, OnOneLine, Flat;
      CountsListed(value);
      FlatIff(value);
      var size := Count(value);
      ghost var before, ms, inner := document, Listed(value), indentString + STEP;
      WriteWithIndent("[");
      Indent();
      var hasChildValue := childValues != [];
      var index := 0;
      NoItemsYet(ms, fmt, inner);
      while true
        invariant 0 <= index < size && !addChildValues && indentString == inner
        invariant hasChildValue ==> Buffered(value, size)
        invariant document == before + ItemsSoFar('[', ms, fmt, inner, index)
        decreases size - index
      {
        ElementOf(value, index);
        NextElement(before, ms, fmt, inner, index);
        ReadyAfterLabel(before + ItemsSoFar('[', ms, fmt, inner, index), inner, ms[index].key);
        if hasChildValue {
          FlatIsPretty(Slot(value, index), fmt, inner);
          WriteWithIndent(childValues[index]);
        } else {
          WriteIndent();
          WriteValue(Slot(value, index));
        }
        index := index + 1;
        if index == size {
          break;
        }
        document := document + ",";
      }
      Unindent();
      WriteWithIndent("]");
      Closes(value, fmt, before, indentString);
    }

    method WriteLine(value: Value)
      requires WellFormed(value) && value.payload.Array? && Count(value) > 0 && !addChildValues
      requires Buffered(value, Count(value))
      modifies this`document
      ensures document == old(document) + Line(value, fmt)
    {
      hide Find, WellFormed, Listed, FlatText, Flat;
      CountsListed(value);
      var size := Count(value);
      assert |childValues| == size;
      ghost var before, ms := document, Listed(value);
      document := document + "[ ";
      for index := 0 to size
        invariant document == before + "[ " + Joined(ms, fmt, index)
      {
        ElementOf(value, index);
        if index > 0 {
          document := document + ", ";
        }
        document := document + childValues[index];
      }
      document := document + " ]";
    }
  }
}
