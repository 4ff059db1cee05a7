/**
 Models of external calls: a prefix expression over integer literals and user
 variables, read word by word into a tree.
 */
module PrefixModel {
  import opened Wrappers
  import opened Program
  import opened ExpressionTree
  import opened Symbolic
  import opened Decimal

  /** The expressions a user can write. */
  datatype Expr = Num(n: int) | Var(name: string) | Compound(op: Op, left: Expr, right: Expr)

  predicate IsBlank(c: char) {
    c == ' ' || c == '\t' || c == '\n' || c == '\U{000B}' || c == '\U{000C}' || c == '\r'
  }

  function SkipBlanks(text: string, pos: nat): (r: nat)
    requires pos <= |text|
    ensures pos <= r <= |text|
    decreases |text| - pos
  {
    if pos < |text| && IsBlank(text[pos]) then SkipBlanks(text, pos + 1) else pos
  }

  function WordEnd(text: string, pos: nat): (r: nat)
    requires pos <= |text|
    ensures pos <= r <= |text|
    ensures pos < |text| && !IsBlank(text[pos]) ==> pos < r
    decreases |text| - pos
  {
    if pos < |text| && !IsBlank(text[pos]) then WordEnd(text, pos + 1) else pos
  }

  /** The next word of a text, empty at its end. */
  datatype Word = Word(chars: string, end: nat)

  function NextWord(text: string, pos: nat): (w: Word)
    requires pos <= |text|
    ensures pos <= w.end <= |text| && (w.chars != [] ==> pos < w.end)
  {
    var start := SkipBlanks(text, pos);
    Word(text[start..WordEnd(text, start)], WordEnd(text, start))
  }

  function OpOfWord(w: string): Option<Op> {
    if w == "+" then Some(Plus)
    else if w == "-" then Some(Minus)
    else if w == "/" then Some(Divide)
    else if w == "*" then Some(Times)
    else None
  }

  /** The digits at the front of a string. */
  function LeadingDigits(s: string): (d: string)
    ensures AllDigits(d)
  {
    if s != [] && IsDigit(s[0]) then [s[0]] + LeadingDigits(s[1..]) else []
  }

  /** `stoi` on a word that starts with a minus sign or a digit: it ignores what follows
      the digits, and throws when there are none or the number does not fit. */
  function Stoi(w: string): Option<int>
    requires w != []
  {
    var digits := LeadingDigits(if w[0] == '-' then w[1..] else w);
    var n := (if w[0] == '-' then -1 else 1) * Number(digits);
    if digits == [] || !Fits(n) then None else Some(n)
  }

  /** The tree a text builds; or the exception of a bad literal, or the null pointer of
      a variable without a tree. */
  datatype Built = Built(tree: Tree, next: nat) | BadLiteral | NoTree

  predicate Bound(s: State, name: string) {
    name in s.userVars && s.userVars[name] in s.env
  }

  /** What reading one expression from a position builds. */
  function Construct(text: string, pos: nat, s: State): (r: Built)
    requires pos <= |text|
    ensures r.Built? ==> pos <= r.next <= |text|
    decreases |text| - pos
  {
    var w := NextWord(text, pos);
    if OpOfWord(w.chars).Some? then
      var l := Construct(text, w.end, s);
      if !l.Built? then l
      else
        var r := Construct(text, l.next, s);
        if !r.Built? then r else Built(Inner(OpOfWord(w.chars).value, l.tree, r.tree), r.next)
    else if w.chars != [] && (w.chars[0] == '-' || IsDigit(w.chars[0])) then
      var n := Stoi(w.chars);
      if n.None? then BadLiteral else Built(Leaf(Some(Const(n.value))), w.end)
    else if Bound(s, w.chars) then Built(s.env[s.userVars[w.chars]], w.end)
    else NoTree
  }

  /** Reads an expression from a stream of words. */
  class PrefixReader {
    const text: string
    const state: State
    var pos: nat

    constructor (text: string, state: State)
      ensures this.text == text && this.state == state && pos == 0
    {
      this.text, this.state, pos := text, state, 0;
    }

    method ReadWord() returns (chars: string)
      requires pos <= |text|
      modifies this
      ensures pos <= |text| && Word(chars, pos) == NextWord(text, old(pos))
    {
      while pos < |text| && IsBlank(text[pos])
        invariant pos <= |text| && SkipBlanks(text, pos) == SkipBlanks(text, old(pos))
      {
        pos := pos + 1;
      }
      var start := pos;
      while pos < |text| && !IsBlank(text[pos])
        invariant start <= pos <= |text| && WordEnd(text, pos) == WordEnd(text, start)
      {
        pos := pos + 1;
      }
      chars := text[start..pos];
    }

    method ConstructTree() returns (r: Built)
      requires pos <= |text|
      modifies this
      ensures r == Construct(text, old(pos), state)
      ensures pos <= |text| && (r.Built? ==> pos == r.next)
      decreases |text| - pos
    {
      hide NextWord, Stoi;
      var curr := ReadWord();
      var op := OpOfWord(curr);
      if op.Some? {
        var left := ConstructTree();
        if !left.Built? {
          return left;
        }
        var right := ConstructTree();
        if !right.Built? {
          return right;
        }
        r := Built(Inner(op.value, left.tree, right.tree), pos);
      } else if curr != [] && (curr[0] == '-' || IsDigit(curr[0])) {
        var literal := Stoi(curr);
        r := if literal.None? then BadLiteral else Built(Leaf(Some(Const(literal.value))), pos);
      } else if Bound(state, curr) {
        r := Built(state.env[state.userVars[curr]], pos);
      } else {
        r := NoTree;
      }
    }
  }

  // ----- What an expression's words build -----

  function WordOfOp(op: Op): string {
    match op
    case Plus => "+"
    case Minus => "-"
    case Divide => "/"
    case Times => "*"
    case _ => ""
  }

  function Words(e: Expr): seq<string> {
    match e
    case Num(n) => [IntText(n)]
    case Var(name) => [name]
    case Compound(op, l, r) => [WordOfOp(op)] + Words(l) + Words(r)
  }

  /** Literals fit an `int`, operators are the four of arithmetic, and variables are
      bound words that look like neither. */
  predicate Writable(e: Expr, s: State) {
    match e
    case Num(n) => Fits(n)
    case Var(name) =>
      && name != [] && name[0] != '-' && !IsDigit(name[0]) && OpOfWord(name).None?
      && (forall k :: 0 <= k < |name| ==> !IsBlank(name[k]))
      && Bound(s, name)
    case Compound(op, l, r) => OpOfWord(WordOfOp(op)) == Some(op) && Writable(l, s) && Writable(r, s)
  }

  /** The words follow one another from a position on; where they end. */
  function ReadWords(text: string, pos: nat, ws: seq<string>): (r: Option<nat>)
    requires pos <= |text|
    ensures r.Some? ==> pos <= r.value <= |text|
    decreases |ws|
  {
    if ws == [] then Some(pos)
    else
      var w := NextWord(text, pos);
      if w.chars == ws[0] then ReadWords(text, w.end, ws[1..]) else None
  }

  /** The expression with each variable replaced by its current tree. */
  function Substitute(e: Expr, s: State): Tree
    requires Writable(e, s)
  {
    match e
    case Num(n) => Leaf(Some(Const(n)))
    case Var(name) => s.env[s.userVars[name]]
    case Compound(op, l, r) => Inner(op, Substitute(l, s), Substitute(r, s))
  }

  /** The value of an expression whose variables have these values. */
  function Value(e: Expr, vars: string -> int): int {
    match e
    case Num(n) => n
    case Var(name) => vars(name)
    case Compound(op, l, r) => Apply(op, Value(l, vars), Value(r, vars))
  }

  /** The value of a user variable on the path: that of its current tree. */
  function Current(s: State, input: Input): string -> int {
    name => if Bound(s, name) then Eval(s.env[s.userVars[name]], input) else 0
  }

  lemma {:induction false} AllAreLeading(s: string)
    requires AllDigits(s)
    ensures LeadingDigits(s) == s
  {
    if s != [] {
      assert AllDigits(s[1..]);
      AllAreLeading(s[1..]);
      assert s == [s[0]] + s[1..];
    }
  }

  /** Literals are read back, and are no operator. */
  lemma LiteralWord(n: int)
    requires Fits(n)
    ensures var w := IntText(n);
            w != [] && (w[0] == '-' || IsDigit(w[0])) && OpOfWord(w).None? && Stoi(w) == Some(n)
  {
    var m: nat := if n < 0 then -n else n;
    NumberOfDigits(m);
    AllAreLeading(Digits(m));
    assert IsDigit(Digits(m)[0]);
    hide Digits, LeadingDigits;
    if n < 0 {
      assert IntText(n)[1..] == Digits(m) && |IntText(n)| > 1;
    }
  }

  lemma {:induction false} ReadWordsSplit(text: string, pos: nat, a: seq<string>, b: seq<string>)
    requires pos <= |text|
    ensures ReadWords(text, pos, a + b) == match ReadWords(text, pos, a) case None => None case Some(e) => ReadWords(text, e, b)
    decreases |a|
  {
    hide NextWord;
    if a == [] {
      assert a + b == b;
    } else {
      assert (a + b)[0] == a[0] && (a + b)[1..] == a[1..] + b;
      ReadWordsSplit(text, NextWord(text, pos).end, a[1..], b);
    }
  }

  lemma OneWord(text: string, pos: nat, w: string)
    requires pos <= |text|
    ensures ReadWords(text, pos, [w]) == if NextWord(text, pos).chars == w then Some(NextWord(text, pos).end) else None
  {
    hide NextWord;
    assert [w][1..] == [];
  }

  /** An expression's words, whatever blanks separate them and whatever follows, are
      exactly what is consumed, and build the expression with its variables replaced. */
  lemma {:induction false} ConstructsExpression(text: string, pos: nat, e: Expr, s: State, end: nat)
    requires Writable(e, s) && pos <= |text| && ReadWords(text, pos, Words(e)) == Some(end)
    ensures Construct(text, pos, s) == Built(Substitute(e, s), end)
    decreases e
  {
    hide NextWord, Stoi;
    match e
    case Num(n) =>
      LiteralWord(n);
      OneWord(text, pos, IntText(n));
    case Var(name) => OneWord(text, pos, name);
    case Compound(op, l, r) =>
      var first := [WordOfOp(op)];
      assert Words(e) == first + (Words(l) + Words(r));
      OneWord(text, pos, WordOfOp(op));
      ReadWordsSplit(text, pos, first, Words(l) + Words(r));
      var p := NextWord(text, pos).end;
      ReadWordsSplit(text, p, Words(l), Words(r));
      var q := ReadWords(text, p, Words(l)).value;
      ConstructsExpression(text, p, l, s, q);
      ConstructsExpression(text, q, r, s, end);
  }

  /** The tree means the expression over the variables' current symbolic values. */
  lemma {:induction false} SubstitutionKeepsMeaning(e: Expr, s: State, input: Input)
    requires Writable(e, s)
    ensures Eval(Substitute(e, s), input) == Value(e, Current(s, input))
  {
    match e
    case Num(_) =>
    case Var(_) =>
    case Compound(_, l, r) =>
      SubstitutionKeepsMeaning(l, s, input);
      SubstitutionKeepsMeaning(r, s, input);
  }

  // ----- Every expression can be written -----

  /** The words with a blank after each. */
  function Spell(ws: seq<string>): string {
    if ws == [] then [] else ws[0] + " " + Spell(ws[1..])
  }

  predicate AreWords(ws: seq<string>) {
    forall k :: 0 <= k < |ws| ==> IsWord(ws[k])
  }

  predicate IsWord(w: string) {
    w != [] && forall k :: 0 <= k < |w| ==> !IsBlank(w[k])
  }

  lemma {:induction false} WordEndsAtBlank(text: string, pos: nat, end: nat)
    requires pos <= end < |text| && IsBlank(text[end]) && forall k :: pos <= k < end ==> !IsBlank(text[k])
    ensures WordEnd(text, pos) == end
    decreases end - pos
  {
    if pos < end {
      WordEndsAtBlank(text, pos + 1, end);
    }
  }

  /** After a blank or at the start, a word followed by a blank is the next word. */
  lemma WordIsNext(before: string, w: string, after: string)
    requires IsWord(w)
    ensures NextWord(before + (w + " " + after), |before|) == Word(w, |before| + |w|)
  {
    var text := before + (w + " " + after);
    assert forall k :: 0 <= k < |w| ==> text[|before| + k] == w[k];
    assert text[|before| + |w|] == ' ';
    WordEndsAtBlank(text, |before|, |before| + |w|);
    assert text[|before|] == w[0];
    assert text[|before|..|before| + |w|] == w;
  }

  lemma BlankIsSkipped(text: string, pos: nat)
    requires pos < |text| && text[pos] == ' '
    ensures NextWord(text, pos) == NextWord(text, pos + 1)
  {
  }

  lemma {:induction false} SpelledWordsAreRead(before: string, ws: seq<string>)
    requires AreWords(ws)
    ensures ReadWords(before + Spell(ws), |before|, ws).Some?
    decreases |ws|
  {
    hide NextWord, IsWord;
    if ws != [] {
      var w, rest := ws[0], Spell(ws[1..]);
      assert Spell(ws) == w + " " + rest;
      hide Spell;
      SpelledWordsAreRead(before + (w + " "), ws[1..]);
      SpellingSplits(before, w, rest);
      WordIsNext(before, w, rest);
      AfterBlank(before + (w + " " + rest), |before| + |w|, ws[1..]);
    }
  }

  lemma SpellingSplits(before: string, w: string, rest: string)
    ensures before + (w + " " + rest) == before + (w + " ") + rest
    ensures |before + (w + " ")| == |before| + |w| + 1
    ensures (before + (w + " " + rest))[|before| + |w|] == ' '
  {
  }

  lemma AfterBlank(text: string, pos: nat, ws: seq<string>)
    requires pos < |text| && text[pos] == ' ' && ReadWords(text, pos + 1, ws).Some?
    ensures ReadWords(text, pos, ws).Some?
  {
    BlankIsSkipped(text, pos);
  }

  lemma LiteralIsWord(n: int)
    ensures IsWord(IntText(n))
  {
    var m: nat := if n < 0 then -n else n;
    NumberOfDigits(m);
    hide Digits;
    var digits := Digits(m);
    assert forall k :: 0 <= k < |digits| ==> IsDigit(digits[k]);
  }

  lemma {:induction false} ExpressionWords(e: Expr, s: State)
    requires Writable(e, s)
    ensures AreWords(Words(e))
  {
    match e
    case Num(n) => LiteralIsWord(n);
    case Var(_) =>
    case Compound(_, l, r) =>
      ExpressionWords(l, s);
      ExpressionWords(r, s);
  }

  /** Every expression, spelled with blanks, builds a tree that means it. */
  lemma ModelsMeanTheirExpression(e: Expr, s: State)
    requires Writable(e, s)
    ensures var r := Construct(Spell(Words(e)), 0, s);
            r.Built? && forall input :: Eval(r.tree, input) == Value(e, Current(s, input))
  {
    ExpressionWords(e, s);
    SpelledWordsAreRead("", Words(e));
    assert "" + Spell(Words(e)) == Spell(Words(e));
    ConstructsExpression(Spell(Words(e)), 0, e, s, ReadWords(Spell(Words(e)), 0, Words(e)).value);
    forall input
      ensures Eval(Substitute(e, s), input) == Value(e, Current(s, input))
    {
      SubstitutionKeepsMeaning(e, s, input);
    }
  }
}
