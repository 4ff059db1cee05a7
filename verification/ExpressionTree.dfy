/**
 Expression trees over program values: the folding constructor, and the meaning
 the solver gives to a tree.
 */
module ExpressionTree {
  import opened Wrappers
  import opened Program

  datatype Op =
    | Plus | Minus | Times | Divide
    | Greater | Less | LessEq | Equal | NotEqual
    | NoOp  // the empty operator text

  /** A leaf holds a value; an inner node holds an operator and no value. A leaf
      with no value is what the folding rules make of a compound operand. */
  datatype Tree = Leaf(value: Option<Value>) | Inner(op: Op, left: Tree, right: Tree)

  predicate IsConstant(t: Tree) {
    t.Leaf? && t.value.Some? && t.value.value.Const?
  }

  function Integer(t: Tree): int
    requires IsConstant(t)
  {
    t.value.value.n
  }

  function TopValue(t: Tree): Option<Value> {
    if t.Leaf? then t.value else None
  }

  /** The constructor of a tree from an operator and two trees. */
  function Make(op: Op, l: Tree, r: Tree): Tree {
    if IsConstant(l) && IsConstant(r) && (op == Plus || op == Minus) then
      Leaf(Some(Const(Wrap32(if op == Plus then Integer(l) + Integer(r) else Integer(l) - Integer(r)))))
    else if (op == Plus || op == Minus) && IsConstant(r) && Integer(r) == 0 then
      Leaf(TopValue(l))
    else if op == Plus && IsConstant(l) && Integer(l) == 0 then
      Leaf(TopValue(r))
    else
      Inner(op, l, r)
  }

  /** What the solver may choose: an integer for every symbolic leaf, the leaf
      without a value included. */
  type Input = Option<Value> -> int

  function Apply(op: Op, a: int, b: int): int {
    match op
    case Plus => a + b
    case Minus => a - b
    case Times => a * b
    case Divide => if b == 0 then 0 else a / b
    case Greater => if a > b then 1 else 0
    case Less => if a < b then 1 else 0
    case LessEq => if a <= b then 1 else 0
    case Equal => if a == b then 1 else 0
    case NotEqual => if a != b then 1 else 0
    case NoOp => 0
  }

  /** The integer the solver's reading of a tree denotes under an input. */
  function Eval(t: Tree, input: Input): int {
    match t
    case Leaf(Some(Const(n))) => n
    case Leaf(v) => input(v)
    case Inner(op, l, r) => Apply(op, Eval(l, input), Eval(r, input))
  }

  /** The folding rules for zero keep only the top value of the other operand:
      these are the calls in which that operand is a compound tree. */
  predicate LosesOperand(op: Op, l: Tree, r: Tree) {
    || ((op == Plus || op == Minus) && IsConstant(r) && Integer(r) == 0 && l.Inner?)
    || (op == Plus && IsConstant(l) && Integer(l) == 0 && r.Inner?)
  }

  /** Folding two literals truncates their sum or difference to 32 bits. */
  predicate FoldOverflows(op: Op, l: Tree, r: Tree) {
    && (op == Plus || op == Minus) && IsConstant(l) && IsConstant(r)
    && !Fits(Apply(op, Integer(l), Integer(r)))
  }

  predicate NoLostLeaf(t: Tree) {
    match t
    case Leaf(v) => v.Some?
    case Inner(_, l, r) => NoLostLeaf(l) && NoLostLeaf(r)
  }

  lemma MakeKeepsMeaning(op: Op, l: Tree, r: Tree, input: Input)
    requires !LosesOperand(op, l, r) && !FoldOverflows(op, l, r)
    ensures Eval(Make(op, l, r), input) == Apply(op, Eval(l, input), Eval(r, input))
  {
    if (op == Plus || op == Minus) && IsConstant(r) && Integer(r) == 0 && !IsConstant(l) {
      assert l.Leaf?;
    }
  }

  /** The input in which the valueless leaf is given the value `n`. */
  function WithLost(input: Input, n: int): Input {
    v => if v == None then n else input(v)
  }

  lemma {:induction false} LostLeafIsFresh(t: Tree, input: Input, n: int)
    requires NoLostLeaf(t)
    ensures Eval(t, WithLost(input, n)) == Eval(t, input)
  {
    match t
    case Leaf(_) =>
    case Inner(_, l, r) =>
      LostLeafIsFresh(l, input, n);
      LostLeafIsFresh(r, input, n);
  }

  /** Exactly when the folding constructor preserves meaning: a compound operand
      next to a folded zero, or an overflowing literal fold, and nothing else,
      changes what the tree denotes. */
  lemma MakeIsExactIff(op: Op, l: Tree, r: Tree)
    requires NoLostLeaf(l) && NoLostLeaf(r)
    ensures (forall input: Input :: Eval(Make(op, l, r), input) == Apply(op, Eval(l, input), Eval(r, input)))
        <==> !LosesOperand(op, l, r) && !FoldOverflows(op, l, r)
  {
    if !LosesOperand(op, l, r) && !FoldOverflows(op, l, r) {
      forall input: Input
        ensures Eval(Make(op, l, r), input) == Apply(op, Eval(l, input), Eval(r, input))
      {
        MakeKeepsMeaning(op, l, r, input);
      }
    } else {
      var zero: Input := _ => 0;
      var exact := Apply(op, Eval(l, zero), Eval(r, zero));
      var input := WithLost(zero, exact + 1);
      LostLeafIsFresh(l, zero, exact + 1);
      LostLeafIsFresh(r, zero, exact + 1);
      assert Eval(Make(op, l, r), input) != Apply(op, Eval(l, input), Eval(r, input));
    }
  }

  /** The rule that loses `x * y` in `x * y + 0`, as a loop accumulating from a
      stored zero would build it. */
  lemma FoldLosesProduct(x: Value, y: Value, product: Tree)
    requires x.Reg? && y.Reg? && product == Inner(Times, Leaf(Some(x)), Leaf(Some(y)))
    ensures Make(Plus, Leaf(Some(Const(0))), product) == Leaf(None)
    ensures exists input: Input :: Eval(Leaf(None), input) != Eval(product, input)
  {
    var input: Input := v => if v == None then 1 else 0;
    assert Eval(product, input) == 0;
    assert Eval(Leaf(None), input) == 1;
  }

  /** A path constraint: a condition tree and the outcome the path takes. */
  datatype Constraint = Constraint(tree: Tree, outcome: bool)

  predicate Holds(c: Constraint, input: Input) {
    (Eval(c.tree, input) != 0) == c.outcome
  }

  ghost predicate Satisfies(cs: seq<Constraint>, input: Input) {
    forall c :: c in cs ==> Holds(c, input)
  }
}
