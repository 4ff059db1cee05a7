/** The JSON reader: a cursor, a stack of values being filled, and a list of errors. */
module JsonReader {
  import opened Wrappers
  import opened JsonValue
  import opened Decimal
  import opened Unicode
  import S = JsonScanner
  import opened JsonReading

  class Reader {
    const dbl: DoubleReader
    var document: string
    var current: nat
    var errors: seq<ErrorInfo>
    var nodes: seq<Value>
    var stackDepth: nat

    predicate Valid()
      reads this
    {
      current <= |document|
    }

    constructor (dbl: DoubleReader)
      ensures Valid() && this.dbl == dbl
    {
      this.dbl := dbl;
      document, current, errors, nodes, stackDepth := [], 0, [], [], 0;
    }

    method GetNextChar() returns (c: char)
      requires Valid()
      modifies this`current
      ensures Valid()
      ensures c == S.At(document, old(current))
      ensures current == if old(current) < |document| then old(current) + 1 else old(current)
    {
      if current == |document| {
        return '\0';
      }
      c := document[current];
      current := current + 1;
    }

    method SkipSpaces()
      requires Valid()
      modifies this`current
      ensures Valid() && current == S.SkipSpaces(document, old(current))
    {
      while current != |document|
        invariant Valid() && S.SkipSpaces(document, current) == S.SkipSpaces(document, old(current))
      {
        var c := document[current];
        if c == ' ' || c == '\t' || c == '\r' || c == '\n' {
          current := current + 1;
        } else {
          break;
        }
      }
    }

    /** Advances over a pattern, or stays where it is. */
    method Match(pattern: string) returns (ok: bool)
      requires Valid()
      modifies this`current
      ensures Valid() && S.Scan(ok, current) == S.WordEnd(document, old(current), pattern)
    {
      if |document| - current < |pattern| {
        return false;
      }
      var index := |pattern|;
      while index > 0
        invariant 0 <= index <= |pattern| && current == old(current)
        invariant forall k :: index <= k < |pattern| ==> document[current + k] == pattern[k]
      {
        index := index - 1;
        if document[current + index] != pattern[index] {
          assert !S.IsAt(document, current, pattern);
          return false;
        }
      }
      current := current + |pattern|;
      ok := true;
    }

    /** Skips digits the way the reader does: one character ahead of the cursor. */
    method SkipDigits(start: nat) returns (c: char, p: nat)
      requires Valid() && start <= |document|
      modifies this`current
      ensures Valid() && current == S.SkipDigits(document, start)
      ensures c == S.At(document, current) && p == if current < |document| then current + 1 else current
    {
      c, p := '0', start;
      while IsDigit(c)
        invariant Valid() && start <= p <= |document|
        invariant IsDigit(c) ==> S.SkipDigits(document, start) == S.SkipDigits(document, p)
        invariant !IsDigit(c) ==>
                    && current == S.SkipDigits(document, start)
                    && c == S.At(document, current) && p == if current < |document| then current + 1 else current
        decreases |document| - p, IsDigit(c)
      {
        current := p;
        c := S.At(document, p);
        p := if p < |document| then p + 1 else p;
      }
    }

    method ReadNumber()
      requires Valid()
      modifies this`current
      ensures Valid() && current == S.NumberEnd(document, old(current))
    {
      var c, p := SkipDigits(current);
      if c == '.' {
        c, p := SkipDigits(p);
      }
      if c == 'e' || c == 'E' {
        current := p;
        c := S.At(document, p);
        if c == '+' || c == '-' {
          p := p + 1;
        }
        c, p := SkipDigits(p);
      }
    }

    method ReadString() returns (ok: bool)
      requires Valid()
      modifies this`current
      ensures Valid() && S.Scan(ok, current) == S.StringEnd(document, old(current))
    {
      var c := '\0';
      while current != |document|
        invariant Valid() && c != '"' && S.StringEnd(document, current) == S.StringEnd(document, old(current))
        decreases |document| - current
      {
        c := GetNextChar();
        if c == '\\' {
          var _ := GetNextChar();
        } else if c == '"' {
          break;
        }
      }
      ok := c == '"';
    }

    method ReadCStyleComment() returns (ok: bool)
      requires Valid()
      modifies this`current
      ensures Valid() && S.Scan(ok, current) == S.CStyleEnd(document, old(current))
    {
      while current != |document|
        invariant Valid() && S.CStyleEnd(document, current) == S.CStyleEnd(document, old(current))
        decreases |document| - current
      {
        var c := GetNextChar();
        if c == '*' && S.At(document, current) == '/' {
          break;
        }
      }
      var last := GetNextChar();
      ok := last == '/';
    }

    method ReadCppStyleComment()
      requires Valid()
      modifies this`current
      ensures Valid() && current == S.CppStyleEnd(document, old(current))
    {
      while current != |document|
        invariant Valid() && S.CppStyleEnd(document, current) == S.CppStyleEnd(document, old(current))
        decreases |document| - current
      {
        var c := GetNextChar();
        if c == '\n' {
          break;
        }
        if c == '\r' {
          if current != |document| && document[current] == '\n' {
            var _ := GetNextChar();
          }
          break;
        }
      }
    }

    method ReadComment() returns (ok: bool)
      requires Valid()
      modifies this`current
      ensures Valid() && S.Scan(ok, current) == S.CommentEnd(document, old(current))
    {
      var c := GetNextChar();
      ok := false;
      if c == '*' {
        ok := ReadCStyleComment();
      } else if c == '/' {
        ReadCppStyleComment();
        ok := true;
      }
    }

    /** Reads one token; an unfinished one is an error token. */
    method ReadToken() returns (token: S.Token)
      requires Valid()
      modifies this`current
      ensures Valid() && token == S.ReadToken(document, old(current)) && current == token.end
    {
      SkipSpaces();
      var start := current;
      var c := GetNextChar();
      var ok, kind := true, S.ErrorToken;
      match c {
        case '{' => kind := S.ObjectBegin;
        case '}' => kind := S.ObjectEnd;
        case '[' => kind := S.ArrayBegin;
        case ']' => kind := S.ArrayEnd;
        case ',' => kind := S.ArraySeparator;
        case ':' => kind := S.MemberSeparator;
        case '\0' => kind := S.EndOfStream;
        case '"' => kind := S.StringToken; ok := ReadString();
        case '/' => kind := S.Comment; ok := ReadComment();
        case 't' => kind := S.TrueToken; ok := Match("rue");
        case 'f' => kind := S.FalseToken; ok := Match("alse");
        case 'n' => kind := S.NullToken; ok := Match("ull");
        case _ =>
          if IsDigit(c) || c == '-' {
            kind := S.NumberToken;
            ReadNumber();
          } else {
            ok := false;
          }
      }
      if !ok {
        kind := S.ErrorToken;
      }
      token := S.Token(kind, start, current);
    }

    method SkipCommentTokens() returns (token: S.Token)
      requires Valid()
      modifies this`current
      ensures Valid() && token == S.SkipComments(document, old(current)) && current == token.end
    {
      token := ReadToken();
      while token.kind == S.Comment
        invariant Valid() && current == token.end
        invariant token.kind == S.Comment ==> S.SkipComments(document, current) == S.SkipComments(document, old(current))
        invariant token.kind != S.Comment ==> token == S.SkipComments(document, old(current))
        decreases |document| - current, token.kind == S.Comment
      {
        token := ReadToken();
      }
    }

    method AddError(message: S.Message, token: S.Token, extra: Option<nat>) returns (ok: bool)
      modifies this`errors
      ensures !ok && errors == old(errors) + [ErrorInfo(message, token, extra)]
    {
      errors := errors + [ErrorInfo(message, token, extra)];
      ok := false;
    }

    /** Skips to a token of a kind, or to the end, and drops the errors met there. */
    method RecoverFromError(skipUntilToken: S.Kind) returns (ok: bool)
      requires Valid()
      modifies this`current, this`errors
      ensures Valid() && !ok && current == S.RecoveryEnd(document, old(current), skipUntilToken) && errors == old(errors)
    {
      var errorCount := |errors|;
      while true
        invariant Valid() && errors == old(errors)
        invariant S.RecoveryEnd(document, current, skipUntilToken) == S.RecoveryEnd(document, old(current), skipUntilToken)
        decreases |document| - current
      {
        var skip := ReadToken();
        if skip.kind == skipUntilToken || skip.kind == S.EndOfStream {
          break;
        }
      }
      errors := errors[..errorCount];
      ok := false;
    }

    method AddErrorAndRecover(message: S.Message, token: S.Token, skipUntilToken: S.Kind) returns (ok: bool)
      requires Valid()
      modifies this`current, this`errors
      ensures Valid() && !ok && current == S.RecoveryEnd(document, old(current), skipUntilToken)
      ensures errors == old(errors) + [ErrorInfo(message, token, None)]
    {
      var _ := AddError(message, token, None);
      ok := RecoverFromError(skipUntilToken);
    }

    // ----- Decoding -----

    method DecodeUnicodeEscapeSequence(token: S.Token, at: nat, end: nat) returns (ok: bool, unicode: nat, next: nat)
      requires at <= end <= |document|
      modifies this`errors
      ensures ok == S.ReadUnit(document, at, end).Unit?
      ensures ok ==> S.ReadUnit(document, at, end) == S.Unit(unicode, next) && errors == old(errors)
      ensures !ok ==> var r := S.ReadUnit(document, at, end); errors == old(errors) + [ErrorInfo(r.message, token, Some(r.extra))]
    {
      hide S.HexDigits;
      unicode, next := 0, at;
      if end - at < 4 {
        ok := AddError(S.FourDigitsExpected, token, Some(at));
        return;
      }
      for index := 0 to 4
        invariant next == at + index && errors == old(errors)
        invariant S.HexDigits(document, next, 4 - index, unicode) == S.ReadUnit(document, at, end)
      {
        NextDigit(next, 4 - index, unicode);
        var c := document[next];
        next := next + 1;
        unicode := unicode * 16;
        if '0' <= c <= '9' {
          unicode := unicode + (c - '0') as nat;
        } else if 'a' <= c <= 'f' {
          unicode := unicode + (c - 'a') as nat + 10;
        } else if 'A' <= c <= 'F' {
          unicode := unicode + (c - 'A') as nat + 10;
        } else {
          ok := AddError(S.HexDigitExpected, token, Some(next));
          return;
        }
      }
      NoMoreDigits(next, unicode);
      ok := true;
    }

    lemma NextDigit(at: nat, n: nat, code: nat)
      requires at + n <= |document| && n > 0
      ensures S.HexDigits(document, at, n, code)
           == if S.IsHex(document[at]) then S.HexDigits(document, at + 1, n - 1, code * 16 + S.HexValue(document[at]))
              else S.BadUnit(S.HexDigitExpected, at + 1)
    {
    }

    lemma NoMoreDigits(at: nat, code: nat)
      requires at <= |document|
      ensures S.HexDigits(document, at, 0, code) == S.Unit(code, at)
    {
    }

    method DecodeUnicodeCodePoint(token: S.Token, at: nat, end: nat) returns (ok: bool, unicode: nat, next: nat)
      requires at <= end <= |document|
      modifies this`errors
      ensures ok == S.ReadCodePoint(document, at, end).Unit?
      ensures ok ==> S.ReadCodePoint(document, at, end) == S.Unit(unicode, next) && errors == old(errors)
      ensures !ok ==> var r := S.ReadCodePoint(document, at, end); errors == old(errors) + [ErrorInfo(r.message, token, Some(r.extra))]
    {
      hide S.ReadUnit;
      ok, unicode, next := DecodeUnicodeEscapeSequence(token, at, end);
      if !ok {
        return;
      }
      if 0xD800 <= unicode <= 0xDBFF {
        if end - next < 6 {
          ok := AddError(S.SixCharactersExpected, token, Some(next));
          return;
        }
        var backslash := document[next] == '\\';
        next := next + 1;
        if backslash {
          next := next + 1;
        }
        if backslash && document[next - 1] == 'u' {
          var surrogatePair;
          ok, surrogatePair, next := DecodeUnicodeEscapeSequence(token, next, end);
          if !ok {
            return;
          }
          unicode := 0x10000 + (unicode % 0x400) * 0x400 + surrogatePair % 0x400;
        } else {
          ok := AddError(S.SecondEscapeExpected, token, Some(next));
        }
      }
    }

    /** Decodes the text between a string token's quotes. */
    method DecodeString(token: S.Token) returns (ok: bool, decoded: string)
      requires token.start + 2 <= token.end <= |document|
      modifies this`errors
      ensures ok == S.DecodeString(document, token.start + 1, token.end - 1).Text?
      ensures ok ==> decoded == S.DecodeString(document, token.start + 1, token.end - 1).s && errors == old(errors)
      ensures !ok ==> var d := S.DecodeString(document, token.start + 1, token.end - 1);
                      errors == old(errors) + [ErrorInfo(d.message, token, Some(d.extra))]
    {
      hide S.ReadCodePoint, CodePointToUTF8;
      ok, decoded := true, "";
      var at, end := token.start + 1, token.end - 1;
      while at != end
        invariant token.start + 1 <= at <= end && errors == old(errors) && ok
        invariant S.DecodeString(document, token.start + 1, end) == S.Prepend(decoded, S.DecodeString(document, at, end))
        decreases end - at
      {
        ghost var before, here := decoded, at;
        var c := document[at];
        at := at + 1;
        if c == '"' {
          break;
        } else if c == '\\' {
          if at == end {
            ok := AddError(S.EmptyEscape, token, Some(at));
            return;
          }
          var escape := document[at];
          at := at + 1;
          if escape == 'u' {
            var unicode;
            ok, unicode, at := DecodeUnicodeCodePoint(token, at, end);
            if !ok {
              return;
            }
            decoded := decoded + CodePointToUTF8(unicode);
          } else {
            var letter := S.Unescape(escape);
            if letter.None? {
              ok := AddError(S.BadEscape, token, Some(at));
              return;
            }
            decoded := decoded + [letter.value];
          }
        } else {
          decoded := decoded + [c];
        }
        PrependTwice(before, decoded[|before|..], S.DecodeString(document, at, end));
      }
    }

    lemma PrependTwice(a: string, b: string, rest: S.Decoded)
      ensures S.Prepend(a, S.Prepend(b, rest)) == S.Prepend(a + b, rest)
    {
      if rest.Text? {
        assert a + (b + rest.s) == a + b + rest.s;
      }
    }

    /** The payload of a number token, if its text is a number at all. */
    method DecodeNumber(token: S.Token) returns (ok: bool, decoded: Payload)
      requires token.start <= token.end <= |document|
      modifies this`errors
      ensures var text := Content(document, token);
              && ok == JsonReading.DecodeNumber(text, dbl).Some?
              && (ok ==> decoded == JsonReading.DecodeNumber(text, dbl).value && errors == old(errors))
              && (!ok ==> errors == old(errors) + [ErrorInfo(S.NotANumber(text), token, None)])
    {
      hide DecodeInteger, Canonical;
      var text := document[token.start..token.end];
      var integer := ReadInteger(text);
      if integer.Some? {
        return true, integer.value;
      }
      var number := dbl(text);
      match number
      case Some(d) => ok, decoded := true, Real(d);
      case None =>
        decoded := Null;
        ok := AddError(S.NotANumber(text), token, None);
    }

    // ----- Values -----

    function CurrentValue(): Value
      requires nodes != []
      reads this
    {
      nodes[|nodes| - 1]
    }

    /** Sets the value on top of the stack. */
    method SetCurrentValue(v: Value)
      requires nodes != []
      modifies this`nodes
      ensures |nodes| == |old(nodes)| && nodes[..|nodes| - 1] == old(nodes)[..|nodes| - 1] && nodes[|nodes| - 1] == v
    {
      nodes := nodes[..|nodes| - 1] + [v];
    }

    /** What a reading has done to the reader: it is as the outcome says, and the stack
        is as it was but for its top. */
    twostate predicate Did(r: Outcome, ok: bool, thrown: bool)
      reads this
    {
      && Valid() && document == old(document) && thrown == r.Thrown?
      && current == r.next && errors == old(errors) + (if r.Read? then r.errors else [])
      && |nodes| == |old(nodes)| > 0 && nodes[..|nodes| - 1] == old(nodes)[..|nodes| - 1]
      && nodes[|nodes| - 1] == r.value
      && stackDepth >= old(stackDepth)
      && (!thrown ==> ok == r.ok && (ok ==> stackDepth == old(stackDepth)))
    }

    /** Reads a value into the top of the stack. */
    method ReadValue() returns (successful: bool, thrown: bool)
      requires Valid() && nodes != []
      modifies this`current, this`errors, this`nodes, this`stackDepth
      ensures Did(old(JsonReading.ReadValue(document, dbl, current, stackDepth, CurrentValue())), successful, thrown)
      decreases |document| - current, 0
    {
      hide S.SkipComments, S.ReadToken, JsonReading.ReadMembers, JsonReading.ReadArray, JsonReading.ReadScalar;
      successful, thrown := false, false;
      if stackDepth >= STACK_LIMIT {
        thrown := true;
        return;
      }
      stackDepth := stackDepth + 1;
      var token := SkipCommentTokens();
      successful := true;
      if token.kind == S.ObjectBegin || token.kind == S.ArrayBegin {
        successful, thrown := ReadContainer(token);
        if thrown {
          return;
        }
      } else {
        successful := ReadScalar(token);
        if !S.IsScalarToken(token.kind) {
          return;
        }
      }
      stackDepth := stackDepth - 1;
    }

    /** Reads an object or an array and sets where its range ends. */
    method ReadContainer(token: S.Token) returns (ok: bool, thrown: bool)
      requires Valid() && nodes != []
      modifies this`current, this`errors, this`nodes, this`stackDepth
      ensures Did(Limit(old(
                if token.kind == S.ObjectBegin
                then JsonReading.ReadMembers(document, dbl, current, stackDepth, Value(Object([]), token.start, CurrentValue().limit), "")
                else JsonReading.ReadArray(document, dbl, current, stackDepth, Value(Array([]), token.start, CurrentValue().limit)))), ok, thrown)
      decreases |document| - current, 5
    {
      hide JsonReading.ReadMembers, JsonReading.ReadArray;
      if token.kind == S.ObjectBegin {
        ok, thrown := ReadObject(token);
      } else {
        ok, thrown := ReadArray(token);
      }
      if !thrown {
        SetCurrentValue(CurrentValue().(limit := current));
      }
    }

    /** Sets the current value from a scalar's token; any other token is an error. */
    method ReadScalar(token: S.Token) returns (ok: bool)
      requires Valid() && nodes != [] && token.start <= token.end == current
      requires token.kind == S.StringToken ==> token.start + 2 <= token.end
      modifies this`errors, this`nodes
      ensures Did(old(JsonReading.ReadScalar(document, dbl, token, CurrentValue())), ok, false)
    {
      hide S.DecodeString, JsonReading.DecodeNumber, Content;
      ok := true;
      match token.kind {
        case NumberToken =>
          var decoded;
          ok, decoded := DecodeNumber(token);
          if ok {
            SetCurrentValue(Value(decoded, token.start, token.end));
          }
        case StringToken =>
          var decoded;
          ok, decoded := DecodeString(token);
          if ok {
            SetCurrentValue(Value(Str(decoded), token.start, token.end));
          }
        case TrueToken => SetCurrentValue(Value(Bool(true), token.start, token.end));
        case FalseToken => SetCurrentValue(Value(Bool(false), token.start, token.end));
        case NullToken => SetCurrentValue(Value(Null, token.start, token.end));
        case _ =>
          SetCurrentValue(CurrentValue().(start := token.start, limit := token.end));
          ok := AddError(S.ValueExpected, token, None);
      }
    }

    /** Reads a child of the current value: pushes it, reads it, pops it, and stores it
        under its key. */
    method ReadChild(key: Key) returns (ok: bool, thrown: bool)
      requires Valid() && nodes != []
      modifies this`current, this`errors, this`nodes, this`stackDepth
      ensures var v := old(CurrentValue());
              var child := old(JsonReading.ReadValue(document, dbl, current, stackDepth, Reference(CurrentValue(), key)));
              Did(child.(value := Assign(v, key, child.value)), ok, thrown)
      decreases |document| - current, 1
    {
      hide JsonReading.ReadValue, Assign, Reference;
      ghost var below := nodes;
      nodes := nodes + [Reference(CurrentValue(), key)];
      ok, thrown := ReadValue();
      var child := CurrentValue();
      nodes := nodes[..|nodes| - 1];
      assert nodes == below;
      SetCurrentValue(Assign(CurrentValue(), key, child));
    }

    /** The reader is inside a container, whose members so far are on top of the stack. */
    twostate predicate Inside()
      reads this
    {
      && Valid() && document == old(document) && errors == old(errors) && stackDepth == old(stackDepth)
      && |nodes| == |old(nodes)| > 0 && nodes[..|nodes| - 1] == old(nodes)[..|nodes| - 1]
      && current >= old(current)
    }

    /** Reads a member from its colon on. */
    method ReadMember(name: string) returns (ok: bool, thrown: bool)
      requires Valid() && nodes != []
      modifies this`current, this`errors, this`nodes, this`stackDepth
      ensures var v := old(CurrentValue());
              var child := old(JsonReading.ReadValue(document, dbl, current, stackDepth, Reference(CurrentValue(), Name(name))));
              Did(if child.Thrown? || child.ok then child.(value := Assign(v, Name(name), child.value))
                  else Recover(old(document), Assign(v, Name(name), child.value), child.next, S.ObjectEnd, child.errors), ok, thrown)
      decreases |document| - current, 2
    {
      hide JsonReading.ReadValue, Assign, Reference;
      ok, thrown := ReadChild(Name(name));
      if !thrown && !ok {
        ok := RecoverFromError(S.ObjectEnd);
      }
    }

    method ReadObject(tokenStart: S.Token) returns (ok: bool, thrown: bool)
      requires Valid() && nodes != []
      modifies this`current, this`errors, this`nodes, this`stackDepth
      ensures Did(old(JsonReading.ReadMembers(document, dbl, current, stackDepth,
                        Value(Object([]), tokenStart.start, CurrentValue().limit), "")), ok, thrown)
      decreases |document| - current, 4
    {
      hide JsonReading.ReadMembers;
      SetCurrentValue(Value(Object([]), tokenStart.start, CurrentValue().limit));
      ok, thrown := ReadMembers();
    }

    /** Reads the members of an object up to its closing brace. */
    method ReadMembers() returns (ok: bool, thrown: bool)
      requires Valid() && nodes != []
      modifies this`current, this`errors, this`nodes, this`stackDepth
      ensures Did(old(JsonReading.ReadMembers(document, dbl, current, stackDepth, CurrentValue(), "")), ok, thrown)
      decreases |document| - current, 3
    {
      hide S.SkipComments, S.ReadToken, S.DecodeString, S.RecoveryEnd, S.TokenAt, S.SkipSpaces, JsonReading.ReadValue, AfterMember, Assign, Reference;
      hide JsonReading.ReadElements, JsonReading.ReadArray, JsonReading.ReadScalar, Put, Find;
      ok, thrown := false, false;
      var name := "";
      ghost var goal := JsonReading.ReadMembers(document, dbl, current, stackDepth, CurrentValue(), name);
      var tokenName := S.Token(S.ErrorToken, 0, 0);
      while true
        invariant Inside() && !thrown
        invariant JsonReading.ReadMembers(document, dbl, current, stackDepth, CurrentValue(), name) == goal
        decreases |document| - current
      {
        tokenName := SkipCommentTokens();
        if tokenName.kind == S.ObjectEnd && name == "" {
          return true, false;
        }
        name := "";
        if tokenName.kind != S.StringToken {
          break;
        }
        ok, name := DecodeString(tokenName);
        if !ok {
          ok := RecoverFromError(S.ObjectEnd);
          return;
        }
        var colon := ReadToken();
        if colon.kind != S.MemberSeparator {
          ok := AddErrorAndRecover(S.ColonExpected, colon, S.ObjectEnd);
          return;
        }
        ok, thrown := ReadMember(name);
        if thrown || !ok {
          return;
        }
        var done;
        ok, done := ReadComma(name);
        if done {
          return;
        }
      }
      ok := AddErrorAndRecover(S.MemberNameExpected, tokenName, S.ObjectEnd);
    }

    /** Reads what follows a member: the end of the object, an error, or a separator. */
    method ReadComma(ghost name: string) returns (ok: bool, done: bool)
      requires Valid() && nodes != []
      modifies this`current, this`errors
      ensures Valid()
      ensures done ==> Did(old(AfterMember(document, dbl, current, stackDepth, CurrentValue(), name)), ok, false)
      ensures !done ==>
                && current > old(current) && errors == old(errors)
                && JsonReading.ReadMembers(document, dbl, current, stackDepth, CurrentValue(), name)
                     == old(AfterMember(document, dbl, current, stackDepth, CurrentValue(), name))
    {
      hide S.TokenAt, S.SkipSpaces, S.RecoveryEnd, JsonReading.ReadMembers;
      var comma := ReadToken();
      if comma.kind != S.ObjectEnd && comma.kind != S.ArraySeparator && comma.kind != S.Comment {
        ok := AddErrorAndRecover(S.MemberEndExpected, comma, S.ObjectEnd);
        return ok, true;
      }
      while comma.kind == S.Comment
        invariant Valid() && current == comma.end && current > old(current) && errors == old(errors)
        invariant comma.kind == S.Comment ==> S.SkipComments(document, current) == S.SkipComments(document, old(current))
        invariant comma.kind != S.Comment ==> comma == S.SkipComments(document, old(current))
        decreases |document| - current, comma.kind == S.Comment
      {
        comma := ReadToken();
      }
      ok, done := true, comma.kind == S.ObjectEnd;
    }

    lemma BracketIsNext()
      requires current < |document| && document[current] == ']'
      ensures S.ReadToken(document, current) == S.Token(S.ArrayEnd, current, current + 1)
    {
    }

    method ReadArray(tokenStart: S.Token) returns (ok: bool, thrown: bool)
      requires Valid() && nodes != []
      modifies this`current, this`errors, this`nodes, this`stackDepth
      ensures Did(old(JsonReading.ReadArray(document, dbl, current, stackDepth,
                        Value(Array([]), tokenStart.start, CurrentValue().limit))), ok, thrown)
      decreases |document| - current, 3
    {
      hide S.SkipSpaces, S.TokenAt, JsonReading.ReadElements;
      ok, thrown := false, false;
      SetCurrentValue(Value(Array([]), tokenStart.start, CurrentValue().limit));
      SkipSpaces();
      if S.At(document, current) == ']' {
        BracketIsNext();
        var endArray := ReadToken();
        return true, false;
      }
      ok, thrown := ReadElements();
    }

    /** Reads the elements of a non-empty array. */
    method ReadElements() returns (ok: bool, thrown: bool)
      requires Valid() && nodes != []
      modifies this`current, this`errors, this`nodes, this`stackDepth
      ensures Did(old(JsonReading.ReadElements(document, dbl, current, stackDepth, CurrentValue(), 0)), ok, thrown)
      decreases |document| - current, 2
    {
      hide S.SkipComments, S.RecoveryEnd, JsonReading.ReadValue, Assign, Reference;
      ok, thrown := false, false;
      var index := 0;
      ghost var goal := JsonReading.ReadElements(document, dbl, current, stackDepth, CurrentValue(), 0);
      while true
        invariant Inside() && !thrown
        invariant JsonReading.ReadElements(document, dbl, current, stackDepth, CurrentValue(), index) == goal
        decreases |document| - current
      {
        ok, thrown := ReadChild(Index(index));
        index := index + 1;
        if thrown {
          return;
        }
        if !ok {
          ok := RecoverFromError(S.ArrayEnd);
          return;
        }
        var token := SkipCommentTokens();
        if token.kind != S.ArraySeparator && token.kind != S.ArrayEnd {
          ok := AddErrorAndRecover(S.ElementEndExpected, token, S.ArrayEnd);
          return;
        }
        if token.kind == S.ArrayEnd {
          break;
        }
      }
      ok := true;
    }

    /** Parses a document into `root`: one value, and the comments that follow it. */
    method Parse(text: string, root: Value) returns (successful: bool, thrown: bool, result: Value)
      modifies this
      ensures Valid() && document == text
      ensures var r := JsonReading.Parse(text, dbl, root);
              && thrown == r.Thrown? && result == r.value && nodes == [result]
              && (if thrown then current == r.next && errors == [] else successful == r.ok && errors == r.errors)
      ensures current <= |text| && |errors| == if thrown || successful then 0 else 1
    {
      document, current, errors, nodes, stackDepth := text, 0, [], [root], 0;
      successful, thrown := ReadValue();
      result := CurrentValue();
      if thrown {
        return;
      }
      var _ := SkipCommentTokens();
    }
  }
}
